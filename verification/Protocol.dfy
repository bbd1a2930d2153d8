/** Commands and replies over the flat stream: executing, loading a page, stepping to the
    next row. Pure counterparts of the driver's entry points. */
module Protocol {
  import opened Bytes
  import opened Text
  import opened Codec
  import opened Header
  import opened Stream

  const TWO_31 := 0x8000_0000
  const TWO_32 := 0x1_0000_0000
  const DEFAULT_PAGE := 100
  const BEFORE_FIRST := 0xFFFF_FFFF    // numRow == (unsigned)-1

  /** Unsigned 32-bit arithmetic. */
  function U32(x: int): (r: nat)
    ensures r < TWO_32
    ensures 0 <= x < TWO_32 ==> r == x
  {
    x % TWO_32
  }

  /** What the network will still do: bytes it accepts, and the flat stream to come. */
  datatype Net = Net(room: nat, incoming: seq<byte>)

  /** A result: header fields, the window [firstRow, firstRow + rowCountSent) and its cells. */
  datatype Res = Res(info: Info, firstRow: nat, numRow: nat, pageSize: nat, page: seq<Value>)

  const NO_INFO := Info(true, 0, UNKNOW, 0, false, 0, 0, [])

  function Types(cs: seq<Column>): (ts: seq<VkType>)
    ensures |ts| == |cs| && forall i :: 0 <= i < |cs| ==> ts[i] == cs[i].kind
  {
    seq(|cs|, i requires 0 <= i < |cs| => cs[i].kind)
  }

  // ---------- Replies ----------

  datatype Checked = Checked(info: Info, header: string, rest: seq<byte>)
                   | Refused(info: Info, header: string, error: int)

  /** Reading and parsing one reply header; `error` is what the connection is left with. */
  function CheckReply(i: Info, s: seq<byte>): Checked {
    match ReadHeader(s)
    case Complete(n) =>
      HeaderBounded(s);
      var h := HeaderText(s[..n]);
      (match ParseHeader(i, h)
       case Accepted(j) => Checked(j, h, s[n..])
       case Rejected(j) => Refused(j, h, j.errorCode))
    case _ => Refused(i.(ok := false, errorCode := -1), "", -1)
  }

  lemma AcceptedClean(i: Info, h: string)
    ensures ParseHeader(i, h).Accepted? ==> ParseHeader(i, h).info.errorCode == 0
  {
    hide Get, GetStatus, Tokens, AliasTokens, Contains, StripEnd, Atoi, Blanks,
      ResultTypeFromString, ReadTypes, ReadAliases, ReadCounts;
  }

  function FaultCode(e: ReadError): int {
    match e
    case Lost => -1
    case Malformed(_, _, _, code) => code
  }

  function Body(i: Info, s: seq<byte>): Parsed<seq<Value>> {
    DecodeBody(Types(i.columns), i.updateable, i.rowCountSent, s)
  }

  lemma CheckedClean(i: Info, s: seq<byte>)
    ensures CheckReply(i, s).Checked? ==> CheckReply(i, s).info.errorCode == 0
  {
    hide ParseHeader, ReadHeader;
    HeaderBounded(s);
    if ReadHeader(s).Complete? {
      AcceptedClean(i, HeaderText(s[..ReadHeader(s).n]));
    }
  }

  /** Numbers in headers are signed 32-bit integers, and counts are not negative. */
  lemma ParseBounded(i: Info, h: string)
    requires i.rowCount < TWO_31 && i.rowCountSent < TWO_31
    ensures ParseHeader(i, h).info.rowCount < TWO_31 && ParseHeader(i, h).info.rowCountSent < TWO_31
    ensures -TWO_31 <= i.statementId < TWO_31 ==> -TWO_31 <= ParseHeader(i, h).info.statementId < TWO_31
  {
    hide Get, GetStatus, ReadColumnCount, ReadTypes, ReadAliases, ReadCounts, ReadResultType;
    match GetStatus(h)
    case Unreadable =>
    case Bad(code) => FieldsBounded(i.(ok := false, errorCode := code), h);
    case Good => FieldsBounded(i.(ok := true, errorCode := 0), h);
  }

  lemma FieldsBounded(i: Info, h: string)
    requires i.rowCount < TWO_31 && i.rowCountSent < TWO_31
    ensures ReadFields(i, h).info.rowCount < TWO_31 && ReadFields(i, h).info.rowCountSent < TWO_31
    ensures -TWO_31 <= i.statementId < TWO_31 ==> -TWO_31 <= ReadFields(i, h).info.statementId < TWO_31
  {
    hide Get, Atoi, ReadTypes, ReadAliases, ReadCounts, Contains, StripEnd, ResultTypeFromString;
    var p := ReadColumnCount(i, h);
    if p.Accepted? {
      CountsBounded(ReadAliases(ReadTypes(p.info, h), h), h);
    }
  }

  lemma CountsBounded(i: Info, h: string)
    requires i.rowCount < TWO_31 && i.rowCountSent < TWO_31
    ensures ReadCounts(i, h).rowCount < TWO_31 && ReadCounts(i, h).rowCountSent < TWO_31
    ensures -TWO_31 <= i.statementId < TWO_31 ==> -TWO_31 <= ReadCounts(i, h).statementId < TWO_31
  {
    hide Get, Contains, Atoi;
  }

  lemma CheckBounded(i: Info, s: seq<byte>)
    requires i.rowCount < TWO_31 && i.rowCountSent < TWO_31 && CheckReply(i, s).Checked?
    ensures CheckReply(i, s).info.rowCount < TWO_31 && CheckReply(i, s).info.rowCountSent < TWO_31
    ensures -TWO_31 <= i.statementId < TWO_31 ==> -TWO_31 <= CheckReply(i, s).info.statementId < TWO_31
  {
    hide ParseHeader, ReadHeader, HeaderText;
    HeaderBounded(s);
    ParseBounded(i, HeaderText(s[..ReadHeader(s).n]));
  }

  /** Bytes after a header that is there already change nothing. */
  lemma CheckReplyExtends(i: Info, s: seq<byte>, more: seq<byte>)
    requires CheckReply(i, s).Checked?
    ensures var p := CheckReply(i, s); CheckReply(i, s + more) == Checked(p.info, p.header, p.rest + more)
  {
    hide ReadHeader, ParseHeader, HeaderText;
    HeaderBounded(s);
    var n := ReadHeader(s).n;
    HeaderAlone(s);
    assert s + more == s[..n] + (s[n..] + more);
    HeaderPrefix(s[..n], s[n..] + more);
    assert (s + more)[..n] == s[..n] && (s + more)[n..] == s[n..] + more;
  }

  lemma HeaderAlone(s: seq<byte>)
    requires ReadHeader(s).Complete?
    ensures ReadHeader(s).n <= |s| && ReadHeader(s[..ReadHeader(s).n]) == ReadHeader(s)
  {
    HeaderBounded(s);
    var n := ReadHeader(s).n;
    HeaderExact(s, n);
    var h := s[..n];
    forall m | 4 <= m <= n
      ensures EndsAt(h, m) == EndsAt(s, m)
    {
      assert h[m - 4..m] == s[m - 4..m];
    }
    HeaderExact(h, n);
  }

  lemma EncodesExtends(rows: seq<Row>, types: seq<VkType>, updateable: bool, n: nat,
                       s: seq<byte>, cells: seq<Value>, rest: seq<byte>, more: seq<byte>)
    requires Encodes(rows, types, updateable, n, s, cells, rest)
    ensures Encodes(rows, types, updateable, n, s + more, cells, rest + more)
  {
    hide RowsOk, EncodeRows, Cells;
    assert EncodeRows(rows) + rest + more == EncodeRows(rows) + (rest + more);
  }

  lemma BodyExtends(i: Info, s: seq<byte>, more: seq<byte>)
    requires Body(i, s).Ok?
    ensures Body(i, s + more) == Ok(Body(i, s).value, Body(i, s).rest + more)
  {
    var types := Types(i.columns);
    if |types| == 0 {
      hide DecodeRows;
    } else {
      hide DecodeBody, Encodes, Types;
      var p := Body(i, s);
      DecodeBodyIff(types, i.updateable, i.rowCountSent, s, p.value, p.rest);
      var rows :| Encodes(rows, types, i.updateable, i.rowCountSent, s, p.value, p.rest);
      EncodesExtends(rows, types, i.updateable, i.rowCountSent, s, p.value, p.rest, more);
      DecodeBodyIff(types, i.updateable, i.rowCountSent, s + more, p.value, p.rest + more);
    }
  }

  // ---------- Loading a page ----------

  function LimitOf(pageSize: nat): (limit: nat)
    ensures limit > 0
  {
    if pageSize > 0 then pageSize else DEFAULT_PAGE
  }

  function PageLimit(res: Res): (limit: nat)
    ensures limit > 0
  {
    LimitOf(res.pageSize)
  }

  /** The rows a page load asks for: first and last index. */
  function Range(res: Res): (nat, nat) {
    var first := U32(res.firstRow + res.info.rowCountSent);
    var last := U32(first + PageLimit(res) - 1);
    (first, if last >= res.info.rowCount then U32(res.info.rowCount - 1) else last)
  }

  function Ascii(s: string): (b: seq<byte>)
    ensures |b| == |s|
  {
    seq(|s|, i requires 0 <= i < |s| => s[i] as int % 256)
  }

  function FetchRequest(statementId: int, first: nat, last: nat): seq<byte> {
    Ascii("123 FETCH-RESULT\r\nSTATEMENT-ID:" + Signed(statementId) + "\r\nCOMMAND-INDEX:000\r\nFIRST-ROW-INDEX:"
          + Signed(Int32(first)) + "\r\nLAST-ROW-INDEX:" + Signed(Int32(last)) + "\r\nOutput-Mode:release\r\n\r\n")
  }

  /** The request for the rows of that range. */
  function PageRequest(res: Res): seq<byte> {
    FetchRequest(res.info.statementId, Range(res).0, Range(res).1)
  }

  /** What of a message goes out while the peer accepts that many bytes. */
  function Cut(msg: seq<byte>, room: nat): (b: seq<byte>)
    ensures b <= msg && (b == msg <==> |msg| <= room) && (|msg| > room ==> |b| == room)
  {
    msg[..Bytes.Min(|msg|, room)]
  }

  /** The fields the second result starts from: zeroed, but for what is copied over. */
  function FetchInfo(res: Res): Info {
    var (first, last) := Range(res);
    NO_INFO.(updateable := res.info.updateable, rowCountSent := U32(last - first + 1), columns := res.info.columns)
  }

  /** The column array is shared until a reply announces a new count, so that metadata in
      other replies is written into the caller's columns. */
  function SharedColumns(res: Res, j: Info, h: string): seq<Column> {
    if Get(h, "Column-Count").Some? then res.info.columns else j.columns
  }

  datatype Load = Loaded(res: Res, net: Net) | Failed(res: Res, error: int)

  function LoadFailure(res: Res, j: Info, h: string, error: int): Load {
    Failed(res.(info := res.info.(ok := j.ok,
                                  errorCode := if j.errorCode != 0 then j.errorCode else error,
                                  columns := SharedColumns(res, j, h))),
           error)
  }

  /** One request and its reply: the fields, the header's text and the rows; or the fields
      and code of the failure. */
  datatype Reply = Reply(info: Info, header: string, cells: seq<Value>, net: Net)
                 | NoReply(info: Info, header: string, error: int)

  function Exchange(i: Info, request: seq<byte>, net: Net): Reply {
    if |request| > net.room then NoReply(i, "", -1) else
      match CheckReply(i, net.incoming)
      case Refused(j, h, error) => NoReply(j, h, error)
      case Checked(j, h, rest) =>
        match Body(j, rest)
        case Fail(e) => NoReply(j.(ok := false, errorCode := FaultCode(e)), h, FaultCode(e))
        case Ok(cells, rest') => Reply(j, h, cells, Net(net.room - |request|, rest'))
  }

  /** What a reply makes of the result that asked for it. */
  function Received(res: Res, reply: Reply): Load {
    match reply
    case NoReply(j, h, error) => LoadFailure(res, j, h, error)
    case Reply(j, h, cells, net) =>
      Loaded(res.(firstRow := Range(res).0, page := cells,
                  info := res.info.(ok := j.ok, errorCode := j.errorCode, rowCountSent := j.rowCountSent,
                                    columns := SharedColumns(res, j, h))),
             net)
  }

  function PageReply(res: Res, net: Net): Reply {
    Exchange(FetchInfo(res), FetchRequest(res.info.statementId, Range(res).0, Range(res).1), net)
  }

  function LoadPage(res: Res, net: Net): Load {
    Received(res, PageReply(res, net))
  }

  /** A failed load leaves the page and the window as they were; the code the caller sees on
      the result is the connection's. */
  lemma FailedLoadKeeps(res: Res, net: Net)
    requires LoadPage(res, net).Failed?
    ensures var r := LoadPage(res, net).res;
            && r == res.(info := res.info.(ok := r.info.ok, errorCode := r.info.errorCode, columns := r.info.columns))
            && r.info.errorCode == LoadPage(res, net).error
  {
    hide ParseHeader, ReadHeader, Body, FetchRequest, Range, Get;
    HeaderBounded(net.incoming);
  }

  // ---------- Next row, field ----------

  /** `error` is the connection's error code afterwards. */
  datatype Step = GotRow(res: Res, net: Net, error: int) | AtEnd(res: Res, net: Net, error: int)
                | LoadFailed(res: Res, error: int)

  function NextRow(res: Res, net: Net, error: int): Step {
    var r := res.(numRow := U32(res.numRow + 1));
    if r.numRow >= r.info.rowCount then AtEnd(r, net, error)
    else if r.numRow > U32(r.firstRow + r.info.rowCountSent - 1) then
      match LoadPage(r, net)
      case Loaded(r', net') => GotRow(r', net', 0)
      case Failed(r', e) => LoadFailed(r', e)
    else GotRow(r, net, error)
  }

  function Advanced(res: Res): Res {
    res.(numRow := U32(res.numRow + 1))
  }

  /** The step to the next row loads a page. */
  predicate Loads(res: Res) {
    var r := Advanced(res);
    r.numRow < r.info.rowCount && r.numRow > U32(r.firstRow + r.info.rowCountSent - 1)
  }

  /** Where the element of column c of the current row is. */
  function ElementIndex(res: Res, c: nat): nat {
    U32(U32(res.numRow - res.firstRow) * |res.info.columns| + c)
  }

  /** The current row's cell c; None when row or column is out of bounds, a null cell is
      Some(Null). */
  function Field(res: Res, c: nat): Option<Value>
    requires res.numRow < res.info.rowCount && c < |res.info.columns| ==> ElementIndex(res, c) < |res.page|
  {
    if res.numRow >= res.info.rowCount || c >= |res.info.columns| then None
    else Some(res.page[ElementIndex(res, c)])
  }
}
