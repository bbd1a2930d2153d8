/** The Python connection's transactions: which statements go out, in which order. */
module Transactions {
  import opened Expansion

  /** A statement sent, by a user's cursor or by the connection's private one. */
  datatype Entry = Statement(text: string) | Private(text: string)

  const START := "START TRANSACTION"
  const COMMIT := "COMMIT"
  const ROLLBACK := "ROLLBACK"

  /** How an execution ends: well, with an error after the statement went out, or before. */
  datatype Fate = Fine | Refused | Unsent

  datatype Conn = Conn(readOnly: bool, inTransaction: bool, connected: bool, sent: seq<Entry>)

  /** The connection afterwards, and whether an exception was raised. */
  datatype Done = Done(conn: Conn, raised: bool)

  // ---------- Which texts count as SELECT ----------

  predicate Blank(c: char) {
    c == ' ' || '\t' <= c <= '\r' || 28 as char <= c <= 31 as char
  }

  function LStrip(s: string): string {
    if s != "" && Blank(s[0]) then LStrip(s[1..]) else s
  }

  function Upper(s: string): (r: string)
    ensures |r| == |s|
  {
    if s == "" then "" else [if 'a' <= s[0] <= 'z' then s[0] - 'a' + 'A' else s[0]] + Upper(s[1..])
  }

  predicate IsSelect(query: string) {
    var s := LStrip(query);
    Upper(if |s| < 6 then s else s[..6]) == "SELECT"
  }

  /** White space, the six letters in any case, and anything more. */
  ghost predicate StartsSelect(query: string) {
    exists n: nat :: SelectAt(query, n)
  }

  ghost predicate SelectAt(query: string, n: nat) {
    && n + 6 <= |query|
    && (forall i :: 0 <= i < n ==> 9 <= query[i] as int <= 13 || 28 <= query[i] as int <= 32)
    && forall i :: 0 <= i < 6 ==> query[n + i] == "SELECT"[i] || query[n + i] == "select"[i]
  }

  lemma {:induction false} UpperAt(s: string, i: nat)
    requires i < |s|
    ensures Upper(s)[i] == if 'a' <= s[i] <= 'z' then s[i] - 'a' + 'A' else s[i]
  {
    if i > 0 {
      UpperAt(s[1..], i - 1);
    }
  }

  lemma LetterCase(c: char, i: nat)
    requires i < 6
    ensures (if 'a' <= c <= 'z' then c - 'a' + 'A' else c) == "SELECT"[i] <==> c == "SELECT"[i] || c == "select"[i]
  {
  }

  lemma UpperSelect(s: string)
    requires |s| == 6
    ensures Upper(s) == "SELECT" <==> forall i :: 0 <= i < 6 ==> s[i] == "SELECT"[i] || s[i] == "select"[i]
  {
    forall i | 0 <= i < 6
      ensures Upper(s)[i] == "SELECT"[i] <==> s[i] == "SELECT"[i] || s[i] == "select"[i]
    {
      UpperAt(s, i);
      LetterCase(s[i], i);
    }
    hide Upper;
    assert Upper(s) == "SELECT" <==> forall i :: 0 <= i < 6 ==> Upper(s)[i] == "SELECT"[i];
  }

  /** The test on the stripped and capitalised text is exactly that. */
  lemma {:induction false} SelectIff(query: string)
    ensures IsSelect(query) <==> StartsSelect(query)
  {
    hide Upper;
    if query != "" && Blank(query[0]) {
      SelectIff(query[1..]);
      if n: nat :| SelectAt(query, n) {
        assert query[n + 0] == "SELECT"[0] || query[n + 0] == "select"[0];
        assert SelectAt(query[1..], n - 1);
      }
      if n: nat :| SelectAt(query[1..], n) {
        assert SelectAt(query, n + 1);
      }
    } else if |query| >= 6 {
      UpperSelect(query[..6]);
      assert SelectAt(query, 0) <==> IsSelect(query);
      assert forall n: nat :: SelectAt(query, n) ==> n == 0;
    }
  }

  // ---------- The methods, as functions of the connection ----------

  function Send(c: Conn, e: Entry, fate: Fate): Done {
    Done(if fate == Unsent then c else c.(sent := c.sent + [e]), fate != Fine)
  }

  /** The private cursor's execute, when a transaction is already open. */
  function PrivateExecute(c: Conn, text: string, fate: Fate): Done {
    if !c.connected then Done(c, true)
    else if c.readOnly && !IsSelect(text) then Done(c, true)
    else Send(c, Private(text), fate)
  }

  /** A user cursor's execute; `start` is how the implicit START TRANSACTION ends. */
  function Executed(c: Conn, query: string, params: seq<Param>, start: Fate, fate: Fate): Done {
    if !c.connected then Done(c, true)
    else if c.readOnly && !IsSelect(query) then Done(c, true)
    else
      var begun := if c.inTransaction || c.readOnly then Done(c, false)
                   else PrivateExecute(c.(inTransaction := true), START, start);
      if begun.raised then begun else Send(begun.conn, Statement(Expand(query, params)), fate)
  }

  /** commit and rollback. */
  function Finished(c: Conn, text: string, fate: Fate): Done {
    var d := if c.inTransaction then PrivateExecute(c, text, fate) else Done(c, false);
    if d.raised then d else Done(d.conn.(inTransaction := false), false)
  }

  function Closed(c: Conn, fate: Fate, disconnects: bool): Done {
    var d := if c.inTransaction then PrivateExecute(c, ROLLBACK, fate) else Done(c, false);
    if d.raised then d
    else Done(d.conn.(connected := false), c.connected && !disconnects)
  }

  datatype Action =
    | DoExecute(query: string, params: seq<Param>, start: Fate, fate: Fate)
    | DoCommit(fate: Fate)
    | DoRollback(fate: Fate)
    | DoClose(fate: Fate, disconnects: bool)
    | DoExit(exception: bool, fate: Fate)     // leaving a with block

  function Do(c: Conn, a: Action): Done {
    match a
    case DoExecute(query, params, start, fate) => Executed(c, query, params, start, fate)
    case DoCommit(fate) => Finished(c, COMMIT, fate)
    case DoRollback(fate) => Finished(c, ROLLBACK, fate)
    case DoClose(fate, disconnects) => Closed(c, fate, disconnects)
    case DoExit(exception, fate) =>
      if !c.inTransaction then Done(c, false) else Finished(c, if exception then ROLLBACK else COMMIT, fate)
  }

  /** Exceptions do not stop a run: the program goes on with the connection as it is left. */
  function Run(c: Conn, actions: seq<Action>): Conn
    decreases |actions|
  {
    if actions == [] then c else Run(Do(c, actions[0]).conn, actions[1..])
  }

  // ---------- Brackets ----------

  datatype Phase = Outside | Inside | Broken

  function Next(p: Phase, e: Entry): Phase {
    match p
    case Broken => Broken
    case Outside => if e == Private(START) then Inside else Broken
    case Inside =>
      if e.Statement? then Inside else if e in {Private(COMMIT), Private(ROLLBACK)} then Outside else Broken
  }

  function From(p: Phase, log: seq<Entry>): Phase
    decreases |log|
  {
    if log == [] then p else From(Next(p, log[0]), log[1..])
  }

  function PhaseOf(log: seq<Entry>): Phase {
    From(Outside, log)
  }

  /** START statement* */
  predicate Opened(log: seq<Entry>) {
    log != [] && log[0] == Private(START) && forall i :: 1 <= i < |log| ==> log[i].Statement?
  }

  predicate Ends(e: Entry) {
    e in {Private(COMMIT), Private(ROLLBACK)}
  }

  /** (START statement* (COMMIT | ROLLBACK))* */
  ghost predicate Brackets(log: seq<Entry>) {
    log == [] || exists k: nat :: k < |log| && Opened(log[..k]) && Ends(log[k]) && Brackets(log[k + 1..])
  }

  lemma {:induction false} FromAppend(p: Phase, a: seq<Entry>, b: seq<Entry>)
    ensures From(p, a + b) == From(From(p, a), b)
    decreases |a|
  {
    if a == [] {
      assert a + b == b;
    } else {
      assert (a + b)[1..] == a[1..] + b;
      FromAppend(Next(p, a[0]), a[1..], b);
    }
  }

  lemma {:induction false} BrokenStays(log: seq<Entry>)
    ensures From(Broken, log) == Broken
  {
    if log != [] {
      BrokenStays(log[1..]);
    }
  }

  lemma {:induction false} StatementsStay(log: seq<Entry>)
    requires forall i :: 0 <= i < |log| ==> log[i].Statement?
    ensures From(Inside, log) == Inside
  {
    if log != [] {
      StatementsStay(log[1..]);
    }
  }

  lemma OpenedPhase(log: seq<Entry>)
    requires Opened(log)
    ensures PhaseOf(log) == Inside
  {
    StatementsStay(log[1..]);
  }

  lemma EndPhase(e: Entry, log: seq<Entry>)
    requires Ends(e)
    ensures From(Inside, [e] + log) == PhaseOf(log)
  {
    assert ([e] + log)[1..] == log;
  }

  lemma {:induction false} BracketsPhase(log: seq<Entry>)
    requires Brackets(log)
    ensures PhaseOf(log) == Outside
    decreases |log|
  {
    hide From, Opened, Ends;
    if log == [] {
      assert From(Outside, []) == Outside by { Empty(); }
    } else {
      var k: nat :| k < |log| && Opened(log[..k]) && Ends(log[k]) && Brackets(log[k + 1..]);
      var a, b := log[..k], log[k + 1..];
      assert log == a + ([log[k]] + b);
      OpenedPhase(a);
      EndPhase(log[k], b);
      FromAppend(Outside, a, [log[k]] + b);
      BracketsPhase(b);
    }
  }

  lemma Empty()
    ensures From(Outside, []) == Outside
  {
  }

  /** Where the open bracket is closed. */
  lemma {:induction false} ClosedAt(log: seq<Entry>) returns (k: nat)
    requires From(Inside, log) == Outside
    ensures k < |log| && Ends(log[k]) && From(Outside, log[k + 1..]) == Outside
    ensures forall i :: 0 <= i < k ==> log[i].Statement?
  {
    if Ends(log[0]) {
      k := 0;
    } else {
      if !log[0].Statement? {
        BrokenStays(log[1..]);
      }
      k := ClosedAt(log[1..]);
      assert log[1..][k + 1..] == log[k + 2..];
      k := k + 1;
    }
  }

  lemma {:induction false} PhaseBrackets(log: seq<Entry>)
    requires PhaseOf(log) == Outside
    ensures Brackets(log)
    decreases |log|
  {
    if log != [] {
      if log[0] != Private(START) {
        BrokenStays(log[1..]);
      }
      var k := ClosedAt(log[1..]);
      assert log[1..][k + 1..] == log[k + 2..];
      PhaseBrackets(log[k + 2..]);
      assert Opened(log[..k + 1]);
    }
  }

  /** A log is in order exactly when it is the beginning of a sequence of brackets. */
  lemma Language(log: seq<Entry>)
    ensures PhaseOf(log) == Outside <==> Brackets(log)
    ensures PhaseOf(log) != Broken <==> exists more :: Brackets(log + more)
  {
    if Brackets(log) {
      BracketsPhase(log);
    }
    if PhaseOf(log) == Outside {
      PhaseBrackets(log);
      assert log + [] == log;
    }
    if PhaseOf(log) == Inside {
      FromAppend(Outside, log, [Private(COMMIT)]);
      PhaseBrackets(log + [Private(COMMIT)]);
    }
    if more :| Brackets(log + more) {
      BracketsPhase(log + more);
      FromAppend(Outside, log, more);
      BrokenStays(more);
    }
  }

  // ---------- Every run keeps the brackets ----------

  /** START goes out, and COMMIT and ROLLBACK are not refused by the server. */
  predicate Tolerable(a: Action) {
    match a
    case DoExecute(_, _, start, _) => start != Unsent
    case DoCommit(fate) => fate != Refused
    case DoRollback(fate) => fate != Refused
    case DoClose(fate, _) => fate != Refused
    case DoExit(_, fate) => fate != Refused
  }

  /** Nothing is out of place; while connected, the flag says whether a bracket is open. */
  ghost predicate InOrder(c: Conn) {
    && PhaseOf(c.sent) != Broken
    && (c.connected ==> (c.inTransaction <==> PhaseOf(c.sent) == Inside))
  }

  lemma SentPhase(log: seq<Entry>, e: Entry)
    ensures PhaseOf(log + [e]) == Next(PhaseOf(log), e)
  {
    FromAppend(Outside, log, [e]);
    assert [e][1..] == [];
  }

  /** The action cannot part the flag from the log. */
  predicate Harmless(c: Conn, a: Action) {
    !c.connected || match a
                    case DoExecute(query, _, start, _) => c.inTransaction || start != Unsent
                    case DoCommit(fate) => !c.inTransaction || fate != Refused
                    case DoRollback(fate) => !c.inTransaction || fate != Refused
                    case DoClose(fate, _) => !c.inTransaction || fate != Refused
                    case DoExit(_, fate) => !c.inTransaction || fate != Refused
  }

  /** An action keeps the order exactly when it does not lose a START or have the server
      refuse a COMMIT or ROLLBACK. */
  lemma DoKeeps(c: Conn, a: Action)
    requires !c.readOnly && InOrder(c)
    ensures InOrder(Do(c, a).conn) <==> Harmless(c, a)
    ensures !Do(c, a).conn.readOnly
  {
    hide PhaseOf, Expand;
    match a
    case DoExecute(query, params, _, _) =>
      SentPhase(c.sent, Private(START));
      SentPhase(c.sent + [Private(START)], Statement(Expand(query, params)));
      SentPhase(c.sent, Statement(Expand(query, params)));
    case _ =>
      SentPhase(c.sent, Private(COMMIT));
      SentPhase(c.sent, Private(ROLLBACK));
  }

  /** A START that is lost leaves the flag set: the next statement goes out in no bracket. */
  lemma LostStart(c: Conn, query: string, params: seq<Param>, fate: Fate)
    requires !c.readOnly && c.connected && !c.inTransaction && InOrder(c)
    ensures PhaseOf(Run(c, [DoExecute(query, params, Unsent, fate), DoExecute(query, params, Fine, Fine)]).sent)
         == Broken
  {
    hide PhaseOf, Expand;
    var a, b := DoExecute(query, params, Unsent, fate), DoExecute(query, params, Fine, Fine);
    SentPhase(c.sent, Statement(Expand(query, params)));
    assert [a, b][1..] == [b] && [b][1..] == [];
    assert Run(c, [a, b]) == Run(Do(c, a).conn, [b]) == Do(Do(c, a).conn, b).conn;
  }

  /** Whatever statements fail, the log of a run is the beginning of a sequence of brackets
      and the flag tells where it stands, until the connection is closed. */
  lemma {:induction false} RunKeeps(c: Conn, actions: seq<Action>)
    requires !c.readOnly && InOrder(c) && forall i :: 0 <= i < |actions| ==> Tolerable(actions[i])
    ensures InOrder(Run(c, actions)) && exists more :: Brackets(Run(c, actions).sent + more)
    decreases |actions|
  {
    Language(Run(c, actions).sent);
    if actions != [] {
      DoKeeps(c, actions[0]);
      RunKeeps(Do(c, actions[0]).conn, actions[1..]);
    }
  }

  /** A statement that succeeds goes out last and inside a bracket. */
  lemma SentInside(c: Conn, query: string, params: seq<Param>, start: Fate, fate: Fate)
    requires !c.readOnly && InOrder(c) && !Executed(c, query, params, start, fate).raised
    ensures var sent := Executed(c, query, params, start, fate).conn.sent;
            && c.sent < sent && sent[|sent| - 1] == Statement(Expand(query, params)) && PhaseOf(sent) == Inside
  {
    hide PhaseOf, Expand;
    SentPhase(c.sent, Private(START));
    SentPhase(c.sent + [Private(START)], Statement(Expand(query, params)));
    SentPhase(c.sent, Statement(Expand(query, params)));
  }

  /** The actions that may close a bracket with text. */
  predicate Asks(a: Action, text: string) {
    match a
    case DoCommit(_) => text == COMMIT
    case DoRollback(_) => text == ROLLBACK
    case DoClose(_, _) => text == ROLLBACK
    case DoExit(exception, _) => text == if exception then ROLLBACK else COMMIT
    case DoExecute(_, _, _, _) => false
  }

  /** What is sent stays sent, and a COMMIT or ROLLBACK goes out only when an action asks for
      it: a with block left by an exception is not committed. */
  lemma {:induction false} OnlyAsked(c: Conn, actions: seq<Action>, text: string)
    requires text == COMMIT || text == ROLLBACK
    requires forall i :: 0 <= i < |actions| ==> !Asks(actions[i], text)
    ensures c.sent <= Run(c, actions).sent
    ensures forall i :: |c.sent| <= i < |Run(c, actions).sent| ==> Run(c, actions).sent[i] != Private(text)
    decreases |actions|
  {
    hide Expand, IsSelect;
    if actions != [] {
      var d := Do(c, actions[0]).conn;
      assert !Asks(actions[0], text);
      OnlyAsked(d, actions[1..], text);
    }
  }

  // ---------- Read-only connections ----------

  /** Only user statements that start with SELECT were sent. */
  ghost predicate Selects(log: seq<Entry>) {
    forall i :: 0 <= i < |log| ==> log[i].Statement? && StartsSelect(log[i].text)
  }

  /** Text without marks passes through the expansion. */
  lemma {:induction false} ExpandPrefix(query: string, params: seq<Param>, n: nat)
    requires n <= |query| && forall i :: 0 <= i < n ==> query[i] != MARK
    ensures Expand(query, params) == query[..n] + Expand(query[n..], params)
  {
    if n == 0 {
      assert query[0..] == query;
    } else {
      ExpandPrefix(query[1..], params, n - 1);
      assert query[..n] == [query[0]] + query[1..][..n - 1];
    }
  }

  /** Breaking out lists leaves a SELECT a SELECT. */
  lemma SelectStays(query: string, params: seq<Param>)
    requires StartsSelect(query)
    ensures StartsSelect(Expand(query, params))
  {
    var n: nat :| SelectAt(query, n);
    forall i | 0 <= i < n + 6
      ensures query[i] != MARK
    {
      if i >= n {
        var j := i - n;
        assert query[n + j] == "SELECT"[j] || query[n + j] == "select"[j];
      }
    }
    ExpandPrefix(query, params, n + 6);
    hide Expand;
    var e := Expand(query, params);
    assert forall i :: 0 <= i < n + 6 ==> e[i] == query[i];
    assert SelectAt(e, n);
  }

  /** A read-only connection sends a SELECT as it is, in no transaction, and refuses anything
      else with nothing sent. */
  lemma ReadOnlyExecute(c: Conn, query: string, params: seq<Param>, start: Fate, fate: Fate)
    requires c.readOnly && c.connected
    ensures Executed(c, query, params, start, fate)
         == if !StartsSelect(query) then Done(c, true)
            else Done(if fate == Unsent then c else c.(sent := c.sent + [Statement(Expand(query, params))]),
                      fate != Fine)
  {
    hide IsSelect, Expand;
    SelectIff(query);
  }

  /** Even with the flag for a transaction set, it sends no COMMIT or ROLLBACK. */
  lemma ReadOnlyFinish(c: Conn, a: Action)
    requires c.readOnly && c.inTransaction && !a.DoExecute?
    ensures Do(c, a) == Done(c, true)
  {
    hide IsSelect, StartsSelect;
    SelectIff(COMMIT);
    SelectIff(ROLLBACK);
    Initial(COMMIT);
    Initial(ROLLBACK);
  }

  lemma Initial(text: string)
    ensures StartsSelect(text) ==> 'S' in text || 's' in text
  {
    if n: nat :| SelectAt(text, n) {
      assert text[n + 0] == "SELECT"[0] || text[n + 0] == "select"[0];
    }
  }

  /** A read-only connection opens no transaction and sends nothing but SELECTs. */
  lemma {:induction false} ReadOnlyRun(c: Conn, actions: seq<Action>)
    requires c.readOnly && !c.inTransaction && Selects(c.sent)
    ensures var d := Run(c, actions); d.readOnly && !d.inTransaction && Selects(d.sent)
    decreases |actions|
  {
    if actions != [] {
      var a := actions[0];
      if a.DoExecute? {
        SelectIff(a.query);
        if IsSelect(a.query) {
          SelectStays(a.query, a.params);
        }
      }
      hide IsSelect, Expand, StartsSelect;
      ReadOnlyRun(Do(c, a).conn, actions[1..]);
    }
  }

  // ---------- What goes out, and what raises ----------

  /** The statement a user executes raises unless it and the START it needs end well, and the
      exact texts that go out. */
  lemma ExecuteSends(c: Conn, query: string, params: seq<Param>, start: Fate, fate: Fate)
    requires c.connected && !c.readOnly
    ensures var d := Executed(c, query, params, start, fate);
            var begins := !c.inTransaction;
            var begun := !begins || start == Fine;
            && (d.raised <==> !begun || fate != Fine)
            && d.conn.sent == c.sent + (if begins && start != Unsent then [Private("START TRANSACTION")] else [])
                              + (if begun && fate != Unsent then [Statement(Expand(query, params))] else [])
            && d.conn.inTransaction && d.conn.connected
  {
    hide Expand;
  }

  /** Committing and rolling back an open transaction raise unless they end well, and only then
      is the transaction over. */
  lemma FinishSends(c: Conn, commit: bool, fate: Fate)
    requires c.connected && !c.readOnly && c.inTransaction
    ensures var d := Do(c, if commit then DoCommit(fate) else DoRollback(fate));
            && (d.raised <==> fate != Fine) && (d.conn.inTransaction <==> fate != Fine)
            && d.conn.sent == c.sent + if fate == Unsent then []
                                       else [Private(if commit then "COMMIT" else "ROLLBACK")]
  {
    assert c.sent + [] == c.sent;
  }

  /** Closing rolls an open transaction back first, and leaves the connection open when that
      fails. */
  lemma CloseSends(c: Conn, fate: Fate, disconnects: bool)
    requires c.connected && !c.readOnly
    ensures var d := Do(c, DoClose(fate, disconnects));
            var stuck := c.inTransaction && fate != Fine;
            && (d.raised <==> stuck || !disconnects) && (d.conn.connected <==> stuck)
            && d.conn.sent == c.sent + if c.inTransaction && fate != Unsent then [Private("ROLLBACK")] else []
  {
    assert c.sent + [] == c.sent;
  }

  /** Nothing goes out on a closed connection; executing raises, and so does everything else
      while the flag for a transaction is still set. */
  lemma {:induction false} ClosedSilent(c: Conn, actions: seq<Action>)
    requires !c.connected
    ensures Run(c, actions).sent == c.sent && !Run(c, actions).connected
    ensures actions != [] ==> (Do(c, actions[0]).raised <==> actions[0].DoExecute? || c.inTransaction)
    decreases |actions|
  {
    if actions != [] {
      hide Expand, IsSelect;
      ClosedSilent(Do(c, actions[0]).conn, actions[1..]);
    }
  }

  // ---------- The objects ----------

  class Connection {
    const readOnly: bool
    var inTransaction: bool
    var connected: bool
    var sent: seq<Entry>
    var privateCursor: Cursor?

    ghost predicate Valid()
      reads this, privateCursor
    {
      && privateCursor != null && privateCursor.connection == this
      && privateCursor.isPrivate && !privateCursor.closed
    }

    function State(): Conn
      reads this
    {
      Conn(readOnly, inTransaction, connected, sent)
    }

    constructor (readOnly: bool)
      ensures Valid() && State() == Conn(readOnly, false, true, []) && fresh(privateCursor)
    {
      this.readOnly, inTransaction, connected, sent := readOnly, false, true, [];
      new;
      privateCursor := new Cursor(this, true);
    }

    method StartTransaction(start: Fate) returns (raised: bool)
      requires Valid() && connected
      modifies `inTransaction, `sent
      ensures Done(State(), raised) ==
              if old(inTransaction) || readOnly then Done(old(State()), false)
              else PrivateExecute(old(State()).(inTransaction := true), START, start)
      decreases 1
    {
      if readOnly || inTransaction {
        return false;
      }
      inTransaction := true;
      raised := privateCursor.Execute(START, [], Fine, start);
    }

    method Finish(text: string, fate: Fate) returns (raised: bool)
      requires Valid()
      modifies `inTransaction, `sent
      ensures Done(State(), raised) == Finished(old(State()), text, fate)
    {
      if inTransaction {
        raised := privateCursor.Execute(text, [], Fine, fate);
        if raised {
          return;
        }
      }
      inTransaction, raised := false, false;
    }

    method Close(fate: Fate, disconnects: bool) returns (raised: bool)
      requires Valid()
      modifies `connected, `sent, `inTransaction
      ensures Done(State(), raised) == Closed(old(State()), fate, disconnects)
    {
      if inTransaction {
        raised := privateCursor.Execute(ROLLBACK, [], Fine, fate);
        if raised {
          return;
        }
      }
      raised := connected && !disconnects;
      connected := false;
    }

    method Exit(exception: bool, fate: Fate) returns (raised: bool)
      requires Valid()
      modifies `inTransaction, `sent
      ensures Done(State(), raised) == Do(old(State()), DoExit(exception, fate))
    {
      raised := false;
      if inTransaction {
        raised := Finish(if exception then ROLLBACK else COMMIT, fate);
      }
    }
  }

  class Cursor {
    const connection: Connection
    const isPrivate: bool
    var closed: bool

    constructor (connection: Connection, isPrivate: bool)
      ensures this.connection == connection && this.isPrivate == isPrivate && !closed
    {
      this.connection, this.isPrivate, closed := connection, isPrivate, false;
    }

    /** Starts a transaction first when none is open, through the connection's own cursor
        and so through this same method. */
    method Execute(query: string, params: seq<Param>, start: Fate, fate: Fate) returns (raised: bool)
      requires connection.Valid() && (isPrivate ==> connection.inTransaction && params == [])
      modifies connection`inTransaction, connection`sent
      ensures Done(connection.State(), raised) ==
              if closed then Done(old(connection.State()), true)
              else if isPrivate then PrivateExecute(old(connection.State()), query, fate)
              else Executed(old(connection.State()), query, params, start, fate)
      decreases if connection.inTransaction then 0 else 2
    {
      hide IsSelect, Expand;
      if !connection.connected || closed {
        return true;
      }
      if connection.readOnly && !IsSelect(query) {
        return true;
      }
      var text, leaves := ExpandLists(query, params);
      LeavesStay(query, []);
      if !connection.inTransaction {
        raised := connection.StartTransaction(start);
        if raised {
          return;
        }
      }
      if fate != Unsent {
        connection.sent := connection.sent + [if isPrivate then Private(text) else Statement(text)];
      }
      raised := fate != Fine;
    }
  }
}
