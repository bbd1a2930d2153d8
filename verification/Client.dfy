/** Executing, fetching and closing on the objects, and whole sessions of such commands. */
module Client {
  import opened Bytes
  import opened Codec
  import opened Stream
  import opened ResultArena
  import opened Header
  import opened Protocol
  import opened Driver
  import opened Pager
  import opened Session

  /** What answering a command leaves behind; res is the value of the current result. */
  ghost predicate AnswerDone(a: Answer, broken: bool, o: Outcome, r: Result, res: Res)
    requires r.cnx.Valid()
    reads r, r.elmt, r.arena, r.arena.Repr, r.cnx, r.cnx.rbuf, r.cnx.socket
  {
    match a
    case Answered(outcome, link) =>
      && !broken && o == outcome && link == Link(res, NetOf(r.cnx)) && Is(r, res)
      && r.cnx.errorCode == 0
    case Broken(error) => broken && r.cnx.errorCode == error
    case Unsent => true
  }

  /** The 8-byte count of rows a statement changed. */
  method ReceiveUpdateCount(r: Result) returns (bad: bool)
    requires r.Valid() && r.errorCode == 0
    modifies r`ok, r`errorCode, r.cnx, r.cnx.rbuf, r.cnx.socket`incoming
    ensures r.Valid() && r.cnx.socket.room == old(r.cnx.socket.room)
    ensures bad <==> |old(r.cnx.Pending())| < 8
    ensures bad ==> r.cnx.errorCode == -1
    ensures !bad ==>
              && r.cnx.updatedRow == FromSignedLe(old(r.cnx.Pending())[..8])
              && r.cnx.Pending() == old(r.cnx.Pending())[8..]
              && r.ok == old(r.ok) && r.errorCode == 0 && r.cnx.errorCode == old(r.cnx.errorCode)
  {
    hide FromSignedLe, Arena.Linked, Shape;
    var got, b := r.cnx.RecvBytes(8);
    bad := !got;
    if bad {
      r.ReadFailed();
    } else {
      r.cnx.updatedRow := FromSignedLe(b);
    }
  }

  /** Every cell of the page, read back through its element. */
  method ReadPage(r: Result, ghost cells: seq<Value>) returns (vs: seq<Value>)
    requires r.Valid() && r.PageIs(cells)
    ensures vs == cells
  {
    hide Arena.Memory, Arena.Linked, Shape, Meaning, InMemory, Result.PageIs;
    vs := [];
    PageSize(r, cells);
    if r.elmt == null {
      return;
    }
    for i := 0 to r.elmt.Length
      invariant vs == cells[..i]
    {
      r.PageElement(i, cells);
      var v := ReadValue(r.arena, r.elmt[i]);
      vs := vs + [v];
    }
  }

  lemma PageSize(r: Result, cells: seq<Value>)
    requires r.PageIs(cells)
    ensures |cells| == if r.elmt == null then 0 else r.elmt.Length
  {
    hide InMemory, Meaning;
  }

  /** Executes a statement into a new result. */
  method ExecuteStatement(cnx: Connection, message: seq<byte>, pageSize: nat)
    returns (broken: bool, o: Outcome, r: Result, ghost res: Res)
    requires cnx.Valid()
    modifies cnx, cnx.rbuf, cnx.socket
    ensures r.Valid() && r.cnx == cnx && fresh(r) && fresh(r.arena) && fresh(r.arena.Repr)
            && (r.elmt == null || fresh(r.elmt))
    ensures AnswerDone(if |message| > old(cnx.socket.room) then Broken(-1)
                       else ReadAnswer(pageSize, old(cnx.socket.room) - |message|, old(cnx.Pending())),
                       broken, o, r, res)
    ensures !broken ==> Is(r, res)
    ensures cnx.socket.outgoing == old(cnx.socket.outgoing) + Cut(message, old(cnx.socket.room))
  {
    hide Connection.Pending, Precedes, Shape, Arena.Linked, Arena.Memory, CheckReply, Protocol.Body, Result.PageIs;
    ghost var s := cnx.Pending();
    o, res := Done, NO_RESULT;
    r := new Result(cnx);
    cnx.errorCode, cnx.updatedRow := 0, -1;
    broken := cnx.SendAll(message);
    assert cnx.Pending() == s;
    if broken {
      return;
    }
    r.pageSize := pageSize;
    CheckedClean(NO_INFO, s);
    ghost var header;
    broken, header := r.ReceivCheck();
    if broken {
      return;
    }
    broken, o, res := ReceiveOutcome(r, s, pageSize, ReadAnswer(pageSize, cnx.socket.room, s));
  }

  /** The part of a reply behind its header. */
  method ReceiveOutcome(r: Result, ghost s: seq<byte>, pageSize: nat, ghost a: Answer)
    returns (broken: bool, o: Outcome, ghost res: Res)
    requires r.Valid() && r.errorCode == r.cnx.errorCode == 0 && r.arena.chunks == [] && r.elmt == null
             && r.firstRow == 0 && r.pageSize == pageSize
    requires var c := CheckReply(NO_INFO, s); c.Checked? && c.info == r.Fields() && c.rest == r.cnx.Pending()
    requires a == ReadAnswer(pageSize, r.cnx.socket.room, s)
    modifies r, r.arena.Repr, r.cnx, r.cnx.rbuf, r.cnx.socket`incoming
    ensures r.Valid() && r.arena == old(r.arena) && fresh(r.arena.Repr - old(r.arena.Repr))
            && (r.elmt == null || fresh(r.elmt))
    ensures AnswerDone(a, broken, o, r, res)
    ensures !broken ==> Is(r, res)
  {
    hide Connection.Pending, Precedes, Shape, Arena.Linked, Arena.Memory, CheckReply, Protocol.Body, FromSignedLe,
      Result.PageIs;
    NoPage(r);
    o := Done;
    match r.resultType {
    case UPDATE_COUNT =>
      broken := ReceiveUpdateCount(r);
      o := Updated(r.cnx.updatedRow);
      res := NewResult(r.Fields(), pageSize, []);
    case RESULT_SET =>
      broken := r.ReceiveData();
      var cells := [];
      if !broken {
        cells := ReadPage(r, Protocol.Body(CheckReply(NO_INFO, s).info, CheckReply(NO_INFO, s).rest).value);
        r.cnx.updatedRow := -1;
      }
      o := GotPage(cells);
      res := NewResult(r.Fields(), pageSize, cells);
    case UNKNOW =>
      broken := false;
      res := NewResult(r.Fields(), pageSize, []);
    }
    r.numRow := BEFORE_FIRST;
  }

  lemma NoPage(r: Result)
    requires r.arena.Linked()
    ensures r.elmt == null ==> r.PageIs([])
  {
  }

  /** Closes the current result's statement; the request's fate is not looked at. */
  method Close(r: Result, ghost res: Res) returns (broken: bool)
    requires r.Valid() && Is(r, res)
    modifies r.cnx, r.cnx.rbuf, r.cnx.socket
    ensures r.Valid() && Is(r, res)
    ensures AnswerDone(Perform(CloseStatement, Link(res, old(NetOf(r.cnx)))), broken, Done, r, res)
    ensures r.cnx.socket.outgoing
         == old(r.cnx.socket.outgoing) + Cut(CloseRequest(res.info.statementId), old(r.cnx.socket.room))
  {
    hide Connection.Pending, Precedes, Shape, Arena.Linked, Arena.Memory, CheckReply, CloseRequest, Result.PageIs;
    var cnx := r.cnx;
    ghost var s := cnx.Pending();
    var state := new Result(cnx);
    cnx.errorCode, cnx.updatedRow := 0, 0;
    var unsent := cnx.SendAll(CloseRequest(r.statementId));
    assert cnx.Pending() == s;
    CheckedClean(NO_INFO, s);
    ghost var header;
    broken, header := state.ReceivCheck();
  }

  /** One command on the current result. */
  method PerformCommand(c: Command, r: Result, ghost res: Res)
    returns (broken: bool, o: Outcome, r': Result, ghost res': Res)
    requires r.Valid() && Is(r, res)
    modifies r, r.arena, r.cnx, r.cnx.rbuf, r.cnx.socket
    ensures r'.Valid() && r'.cnx == r.cnx && (r' == r || fresh(r')) && (r'.arena == old(r.arena) || fresh(r'.arena))
    ensures AnswerDone(Perform(c, Link(res, old(NetOf(r.cnx)))), broken, o, r', res')
    ensures !broken ==> Is(r', res')
    ensures r.cnx.socket.outgoing
         == old(r.cnx.socket.outgoing) + Cut(RequestOf(c, res), old(r.cnx.socket.room))
  {
    hide Connection.Pending, Precedes, Shape, Arena.Linked, Arena.Memory, ReadAnswer, LoadPage, Result.PageIs;
    r', res' := r, res;
    match c
    case Execute(message, pageSize) =>
      broken, o, r', res' := ExecuteStatement(r.cnx, message, pageSize);
    case FetchPage =>
      var l: Load := LoadPage(res, NetOf(r.cnx));
      LoadedClean(res, NetOf(r.cnx));
      broken := FetchResult(r, res);
      o := Done;
      if !broken {
        res' := l.res;
        var cells := ReadPage(r, l.res.page);
        o := GotPage(cells);
      }
    case CloseStatement =>
      o := Done;
      broken := Close(r, res);
  }

  /** A run, with what it writes behind what went out before. */
  ghost function Course(cs: seq<Command>, l: Link, sent: seq<byte>): (Log, seq<byte>) {
    (Session.Run(cs, l), sent + Written(cs, l))
  }

  /** The run that is left when these outcomes are there. */
  ghost predicate Continues(whole: (Log, seq<byte>), outcomes: seq<Outcome>, left: (Log, seq<byte>)) {
    whole.0.end.Unsent? || (whole.0 == Log(outcomes + left.0.outcomes, left.0.end) && whole.1 == left.1)
  }

  lemma CourseStep(cs: seq<Command>, l: Link, sent: seq<byte>, whole: (Log, seq<byte>), outcomes: seq<Outcome>)
    requires cs != [] && Continues(whole, outcomes, Course(cs, l, sent))
    ensures var now := sent + Cut(RequestOf(cs[0], l.res), l.net.room);
            match Perform(cs[0], l)
            case Answered(o, l') => Continues(whole, outcomes + [o], Course(cs[1..], l', now))
            case Broken(error) => whole.0.end.Unsent? || whole == (Log(outcomes, Broken(error)), now)
            case Unsent => whole.0.end.Unsent?
  {
    hide Perform, RequestOf, Cut;
    var out := Cut(RequestOf(cs[0], l.res), l.net.room);
    match Perform(cs[0], l)
    case Answered(o, l') =>
      assert sent + (out + Written(cs[1..], l')) == sent + out + Written(cs[1..], l');
      assert outcomes + ([o] + Session.Run(cs[1..], l').outcomes) == outcomes + [o] + Session.Run(cs[1..], l').outcomes;
    case _ =>
      assert sent + (out + []) == sent + out;
      assert outcomes + [] == outcomes;
  }

  lemma CourseEnds(l: Link, sent: seq<byte>, whole: (Log, seq<byte>), outcomes: seq<Outcome>)
    requires Continues(whole, outcomes, Course([], l, sent))
    ensures whole.0.end.Unsent? || whole == (Log(outcomes, Answered(Done, l)), sent)
  {
    assert outcomes + [] == outcomes && sent + [] == sent;
  }

  lemma CourseStarts(whole: (Log, seq<byte>))
    ensures Continues(whole, [], whole)
  {
    assert [] + whole.0.outcomes == whole.0.outcomes;
  }

  /** A session: the commands in turn, up to the first that fails. The outcomes are those of
      parsing the flat stream, however the network cut it up, and the commands' messages go out
      in turn. */
  method RunSession(cs: seq<Command>, r0: Result, ghost res0: Res)
    returns (outcomes: seq<Outcome>, broken: bool, r: Result)
    requires r0.Valid() && Is(r0, res0)
    modifies r0, r0.arena, r0.cnx, r0.cnx.rbuf, r0.cnx.socket
    ensures r.Valid() && r.cnx == r0.cnx
    ensures var log := Session.Run(cs, Link(res0, old(NetOf(r0.cnx))));
            && (log.end.Answered? ==>
                  !broken && outcomes == log.outcomes && Is(r, log.end.link.res) && NetOf(r.cnx) == log.end.link.net)
            && (log.end.Broken? ==> broken && outcomes == log.outcomes && r.cnx.errorCode == log.end.error)
            && (!log.end.Unsent? ==>
                  r.cnx.socket.outgoing
                  == old(r0.cnx.socket.outgoing) + Written(cs, Link(res0, old(NetOf(r0.cnx)))))
  {
    hide Connection.Pending, Precedes, Shape, Arena.Linked, Arena.Memory, Perform, Result.PageIs, RequestOf, Written,
      Session.Run, Cut;
    ghost var whole := Course(cs, Link(res0, NetOf(r0.cnx)), r0.cnx.socket.outgoing);
    CourseStarts(whole);
    ghost var res := res0;
    outcomes, broken, r := [], false, r0;
    assert cs[0..] == cs;
    for i := 0 to |cs|
      invariant r.Valid() && r.cnx == r0.cnx && Is(r, res) && (r == r0 || fresh(r))
                && (r.arena == old(r0.arena) || fresh(r.arena))
      invariant Continues(whole, outcomes, Course(cs[i..], Link(res, NetOf(r.cnx)), r.cnx.socket.outgoing))
    {
      var o;
      assert cs[i..][1..] == cs[i + 1..];
      CourseStep(cs[i..], Link(res, NetOf(r.cnx)), r.cnx.socket.outgoing, whole, outcomes);
      broken, o, r, res := PerformCommand(cs[i], r, res);
      if broken {
        return;
      }
      outcomes := outcomes + [o];
    }
    assert cs[|cs|..] == [];
    CourseEnds(Link(res, NetOf(r.cnx)), r.cnx.socket.outgoing, whole, outcomes);
  }
}
