/** Sequences of commands over one connection, and the proof that replies stay in step. */
module Session {
  import opened Bytes
  import opened Text
  import opened Codec
  import opened Header
  import opened Stream
  import opened Headings
  import opened Protocol
  import opened Cursor

  /** Executing a statement (by the message that carries it), fetching the next page of its
      result, closing it. */
  datatype Command = Execute(message: seq<byte>, pageSize: nat) | FetchPage | CloseStatement

  datatype Outcome = Updated(count: int) | GotPage(cells: seq<Value>) | Done

  /** The client between commands: its current result and the network. */
  datatype Link = Link(res: Res, net: Net)

  /** Unsent: a close whose request did not go out. The driver reads on all the same; what it
      then finds is left open. */
  datatype Answer = Answered(outcome: Outcome, link: Link) | Broken(error: int) | Unsent

  const NO_RESULT := Res(NO_INFO, 0, 0, 0, [])

  function NewResult(j: Info, pageSize: nat, page: seq<Value>): Res {
    Res(j, 0, BEFORE_FIRST, pageSize, page)
  }

  /** The reply to an execute: an 8-byte count, the first page, or nothing more. */
  function ReadAnswer(pageSize: nat, room: nat, s: seq<byte>): Answer {
    match CheckReply(NO_INFO, s)
    case Refused(_, _, error) => Broken(error)
    case Checked(j, _, rest) =>
      match j.resultType
      case UPDATE_COUNT =>
        if |rest| < 8 then Broken(-1)
        else Answered(Updated(FromSignedLe(rest[..8])), Link(NewResult(j, pageSize, []), Net(room, rest[8..])))
      case RESULT_SET =>
        (match Body(j, rest)
         case Fail(e) => Broken(FaultCode(e))
         case Ok(cells, rest') => Answered(GotPage(cells), Link(NewResult(j, pageSize, cells), Net(room, rest'))))
      case UNKNOW => Answered(Done, Link(NewResult(j, pageSize, []), Net(room, rest)))
  }

  function CloseRequest(statementId: int): seq<byte> {
    Ascii("007 CLOSE-STATEMENT\r\nSTATEMENT-ID:" + Signed(statementId) + "\r\n\r\n")
  }

  function Perform(c: Command, l: Link): Answer {
    match c
    case Execute(message, pageSize) =>
      if |message| > l.net.room then Broken(-1)
      else ReadAnswer(pageSize, l.net.room - |message|, l.net.incoming)
    case FetchPage =>
      (match LoadPage(l.res, l.net)
       case Failed(_, error) => Broken(error)
       case Loaded(r, n) => Answered(GotPage(r.page), Link(r, n)))
    case CloseStatement =>
      var request := CloseRequest(l.res.info.statementId);
      if |request| > l.net.room then Unsent else
        match CheckReply(NO_INFO, l.net.incoming)
        case Refused(_, _, error) => Broken(error)
        case Checked(_, _, rest) => Answered(Done, l.(net := Net(l.net.room - |request|, rest)))
  }

  /** The commands in turn, up to the first that fails. */
  datatype Log = Log(outcomes: seq<Outcome>, end: Answer)

  function Run(cs: seq<Command>, l: Link): Log {
    if cs == [] then Log([], Answered(Done, l)) else
      match Perform(cs[0], l)
      case Answered(o, l') => var more := Run(cs[1..], l'); Log([o] + more.outcomes, more.end)
      case stop => Log([], stop)
  }

  /** The message that carries a command. */
  function RequestOf(c: Command, res: Res): seq<byte> {
    match c
    case Execute(message, _) => message
    case FetchPage => PageRequest(res)
    case CloseStatement => CloseRequest(res.info.statementId)
  }

  /** What a run writes to the network. */
  function Written(cs: seq<Command>, l: Link): seq<byte> {
    if cs == [] then [] else
      Cut(RequestOf(cs[0], l.res), l.net.room)
      + match Perform(cs[0], l) case Answered(_, l') => Written(cs[1..], l') case _ => []
  }

  // ---------- Replies stay in step ----------

  /** The same client with more bytes behind those to come. */
  function Behind(l: Link, more: seq<byte>): Link {
    l.(net := l.net.(incoming := l.net.incoming + more))
  }

  lemma LoadExtends(res: Res, net: Net, more: seq<byte>)
    requires LoadPage(res, net).Loaded?
    ensures var l := LoadPage(res, net);
            LoadPage(res, net.(incoming := net.incoming + more)) ==
            Loaded(l.res, l.net.(incoming := l.net.incoming + more))
  {
    hide CheckReply, Body, FetchRequest, FetchInfo, SharedColumns, Range;
    CheckReplyExtends(FetchInfo(res), net.incoming, more);
    var c := CheckReply(FetchInfo(res), net.incoming);
    BodyExtends(c.info, c.rest, more);
  }

  lemma AnswerExtends(pageSize: nat, room: nat, s: seq<byte>, more: seq<byte>)
    requires ReadAnswer(pageSize, room, s).Answered?
    ensures var a := ReadAnswer(pageSize, room, s);
            ReadAnswer(pageSize, room, s + more) == Answered(a.outcome, Behind(a.link, more))
  {
    hide CheckReply, Body, FromSignedLe;
    CheckReplyExtends(NO_INFO, s, more);
    var c := CheckReply(NO_INFO, s);
    if c.info.resultType.RESULT_SET? {
      BodyExtends(c.info, c.rest, more);
    } else if c.info.resultType.UPDATE_COUNT? {
      assert (c.rest + more)[..8] == c.rest[..8] && (c.rest + more)[8..] == c.rest[8..] + more;
    }
  }

  /** A reply that parses on its own parses the same with other replies behind it, and none
      of those bytes is touched. */
  lemma PerformExtends(c: Command, l: Link, more: seq<byte>)
    requires Perform(c, l).Answered?
    ensures var a := Perform(c, l); Perform(c, Behind(l, more)) == Answered(a.outcome, Behind(a.link, more))
  {
    hide ReadAnswer, LoadPage, CheckReply, CloseRequest;
    match c
    case Execute(message, pageSize) => AnswerExtends(pageSize, l.net.room - |message|, l.net.incoming, more);
    case FetchPage => LoadExtends(l.res, l.net, more);
    case CloseStatement => CheckReplyExtends(NO_INFO, l.net.incoming, more);
  }

  function Concat(replies: seq<seq<byte>>): seq<byte> {
    if replies == [] then [] else replies[0] + Concat(replies[1..])
  }

  /** Each reply, alone on the wire, answers its command with the given outcome and is used
      up entirely. */
  ghost predicate Replied(cs: seq<Command>, replies: seq<seq<byte>>, outcomes: seq<Outcome>, res: Res, room: nat) {
    && |cs| == |replies| == |outcomes|
    && (cs != [] ==>
          var a := Perform(cs[0], Link(res, Net(room, replies[0])));
          && a.Answered? && a.outcome == outcomes[0] && a.link.net.incoming == []
          && Replied(cs[1..], replies[1..], outcomes[1..], a.link.res, a.link.net.room))
  }

  /** With the replies back to back on the wire, the session gets every outcome and ends at
      the first byte after the last reply. */
  lemma {:induction false} Lockstep(cs: seq<Command>, replies: seq<seq<byte>>, outcomes: seq<Outcome>,
                                    res: Res, room: nat, tail: seq<byte>)
    requires Replied(cs, replies, outcomes, res, room)
    ensures var log := Run(cs, Link(res, Net(room, Concat(replies) + tail)));
            && log.outcomes == outcomes && log.end.Answered? && log.end.link.net.incoming == tail
  {
    hide Perform;
    if cs == [] {
      assert Concat(replies) + tail == tail;
    } else {
      var more := Concat(replies[1..]) + tail;
      var one := Link(res, Net(room, replies[0]));
      var a := Perform(cs[0], one);
      assert Concat(replies) + tail == replies[0] + more;
      PerformExtends(cs[0], one, more);
      assert [] + more == more;
      Lockstep(cs[1..], replies[1..], outcomes[1..], a.link.res, a.link.net.room, tail);
      assert outcomes == [outcomes[0]] + outcomes[1..];
    }
  }

  // ---------- From the execute to the full scan ----------

  /** A header that opens a result of n rows, `sent` of them in the first page. */
  ghost predicate Opens(header: seq<byte>, n: nat, sent: nat, updateable: bool, types: seq<VkType>) {
    && ReadHeader(header) == Complete(|header|)
    && FieldsFit(HeaderText(header))
    && var p := ParseHeader(NO_INFO, HeaderText(header));
       && p.Accepted? && p.info.ok && p.info.resultType == RESULT_SET
       && p.info.rowCount == n && p.info.rowCountSent == sent && p.info.updateable == updateable
       && Types(p.info.columns) == types && NamesFit(p.info.columns)
  }

  /** The first reply on the wire is taken off exactly. */
  lemma FirstReply(header: seq<byte>, rows: seq<Row>, n: nat, updateable: bool, types: seq<VkType>,
                   pageSize: nat, room: nat, more: seq<byte>)
    requires types != [] && Opens(header, n, |rows|, updateable, types) && RowsOk(rows, types, updateable)
    ensures ReadAnswer(pageSize, room, header + (EncodeRows(rows) + more))
         == Answered(GotPage(Cells(rows)),
                     Link(NewResult(ParseHeader(NO_INFO, HeaderText(header)).info, pageSize, Cells(rows)),
                          Net(room, more)))
  {
    hide ParseHeader, ReadHeader, RowsOk, Cells, EncodeRows, HeaderText, CheckReply, Body, Types, FieldsFit, NamesFit;
    HeaderFirst(NO_INFO, header, EncodeRows(rows) + more);
    BodyTaken(ParseHeader(NO_INFO, HeaderText(header)).info, rows, updateable, types, more);
  }

  lemma HeaderFirst(i: Info, h: seq<byte>, more: seq<byte>)
    requires ReadHeader(h) == Complete(|h|) && ParseHeader(i, HeaderText(h)).Accepted?
    ensures CheckReply(i, h + more) == Checked(ParseHeader(i, HeaderText(h)).info, HeaderText(h), more)
  {
    hide ParseHeader, ReadHeader, HeaderText;
    HeaderPrefix(h, more);
    assert (h + more)[..|h|] == h && (h + more)[|h|..] == more;
  }

  /** Executing against a server that answers with a first page and then pages of the rest
      leaves a cursor before the first row of the table. The pages may bring fewer rows than
      the n announced. */
  lemma ExecuteShows(header: seq<byte>, rows: seq<Row>, coming: seq<Page>, n: nat, updateable: bool, types: seq<VkType>,
                     pageSize: nat, room: nat, tail: seq<byte>)
    returns (w: Window)
    requires types != [] && Opens(header, n, |rows|, updateable, types) && RowsOk(rows, types, updateable)
    requires n > 0 ==> rows != []
    requires PagesOk(coming, |rows|, n, LimitOf(pageSize), updateable, types)
    requires |rows| + |PagesRows(coming)| <= n && n * |types| < TWO_32 && pageSize < TWO_31
    ensures Table(w) == rows + PagesRows(coming) && w == Window([], rows, coming)
    ensures var a := ReadAnswer(pageSize, room, header + (EncodeRows(rows) + (PagesBytes(coming) + tail)));
            && a.Answered? && a.outcome == GotPage(Cells(rows)) && a.link.net.room == room
            && -TWO_31 <= a.link.res.info.statementId < TWO_31
            && a.link.res.info.resultType == RESULT_SET && a.link.res.pageSize == pageSize
            && Shows(a.link.res, a.link.net, w, n, types, updateable, tail) && At(a.link.res, 0)
  {
    hide ReadAnswer, ParseHeader, ReadHeader, HeaderText, RowsOk, PagesOk, Cells, EncodeRows, PagesBytes, PagesRows,
      Types, FieldsFit, NamesFit;
    w := Window([], rows, coming);
    ParseBounded(NO_INFO, HeaderText(header));
    FirstReply(header, rows, n, updateable, types, pageSize, room, PagesBytes(coming) + tail);
    assert [] + rows + PagesRows(coming) == rows + PagesRows(coming);
  }

  /** A heading with all its lines opens a result; the row count it opens it with is right
      when its line comes before that of the rows sent. */
  lemma HeadingOpens(d: Heading)
    requires HeadingOk(d) && |Rendered(d)| < MAX_HEADER
    ensures Narrow(Rendered(d))
    ensures Opens(HeadingBytes(d), RowCountRead(d), d.sent, d.updateable, d.types)
  {
    HeadingRead(d);
    HeadingParsed(d, NO_INFO);
    hide ParseHeader, Rendered, ReadHeader, HeaderText, FieldsFit, NamesFit, HeadingOk, RowCountRead;
  }
}
