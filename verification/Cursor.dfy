/** Paging against a server that holds one table: the windowed result looks like the table. */
module Cursor {
  import opened Bytes
  import opened Text
  import opened Codec
  import opened Header
  import opened Stream
  import opened Replies
  import opened Headings
  import opened Protocol

  /** One reply to a page load: its header block and its rows. */
  datatype Page = Page(header: seq<byte>, rows: seq<Row>)

  /** The fields a page load starts from: zeroed, but for what is copied over and the number
      of rows asked for. */
  ghost predicate Starts(i: Info, asked: nat, updateable: bool, types: seq<VkType>) {
    && i == NO_INFO.(updateable := updateable, rowCountSent := asked, columns := i.columns)
    && Types(i.columns) == types && NamesFit(i.columns)
  }

  /** The header is read whole, its values fit their buffers and, with what the driver starts
      from, it comes to n rows of the same columns. It may leave out what the driver copies. */
  ghost predicate Announces(header: seq<byte>, asked: nat, n: nat, updateable: bool, types: seq<VkType>) {
    && ReadHeader(header) == Complete(|header|)
    && FieldsFit(HeaderText(header))
    && forall i: Info :: Starts(i, asked, updateable, types) ==>
                           AnnouncesFrom(i, HeaderText(header), n, updateable, types)
  }

  ghost predicate AnnouncesFrom(i: Info, h: string, n: nat, updateable: bool, types: seq<VkType>) {
    var p := ParseHeader(i, h);
    && p.Accepted? && p.info.ok && p.info.rowCountSent == n && p.info.updateable == updateable
    && Types(p.info.columns) == types && NamesFit(p.info.columns)
  }

  ghost predicate PageOk(p: Page, asked: nat, updateable: bool, types: seq<VkType>) {
    && p.rows != [] && RowsOk(p.rows, types, updateable)
    && Announces(p.header, asked, |p.rows|, updateable, types)
  }

  /** How many rows are asked for when the next one is `next` of n. */
  function Asked(next: nat, n: nat, limit: nat): nat {
    if next < n then Bytes.Min(limit, n - next) else 0
  }

  /** Each page answers the request made when the rows before it have come. */
  ghost predicate PagesOk(pages: seq<Page>, next: nat, n: nat, limit: nat, updateable: bool, types: seq<VkType>) {
    pages != [] ==>
      && PageOk(pages[0], Asked(next, n, limit), updateable, types)
      && PagesOk(pages[1..], next + |pages[0].rows|, n, limit, updateable, types)
  }

  function PageBytes(p: Page): seq<byte> {
    p.header + EncodeRows(p.rows)
  }

  function PagesBytes(pages: seq<Page>): seq<byte> {
    if pages == [] then [] else PageBytes(pages[0]) + PagesBytes(pages[1..])
  }

  function PagesRows(pages: seq<Page>): seq<Row> {
    if pages == [] then [] else pages[0].rows + PagesRows(pages[1..])
  }

  /** A table cut where the driver stands: rows of earlier pages, the rows of the page it
      holds, and the pages the server will send. */
  datatype Window = Window(seen: seq<Row>, shown: seq<Row>, coming: seq<Page>)

  function Table(w: Window): seq<Row> {
    w.seen + w.shown + PagesRows(w.coming)
  }

  /** The result holds the shown rows; the coming pages are next on the wire, then `tail`.
      The result announced n rows, which may be more than those pages bring. */
  ghost predicate Shows(res: Res, net: Net, w: Window, n: nat, types: seq<VkType>, updateable: bool, tail: seq<byte>) {
    && Fixed(res, n, types, updateable) && |Table(w)| <= n
    && |w.seen| == res.firstRow && |w.shown| == res.info.rowCountSent
    && RowsOk(w.shown, types, updateable) && res.page == Cells(w.shown)
    && PagesOk(w.coming, |w.seen| + |w.shown|, n, PageLimit(res), updateable, types)
    && net.incoming == PagesBytes(w.coming) + tail
  }

  /** What every page load leaves alone: the types of the columns and the number n of rows,
      small enough for the 32-bit indices. */
  ghost predicate Fixed(res: Res, n: nat, types: seq<VkType>, updateable: bool) {
    && types != [] && Types(res.info.columns) == types && NamesFit(res.info.columns)
    && res.info.updateable == updateable
    && n == res.info.rowCount < 0x8000_0000 && n * |types| < TWO_32
    && res.pageSize < 0x8000_0000
  }

  /** k rows have been read: the row pointer stands on row k - 1, inside the window. */
  predicate At(res: Res, k: nat) {
    if k == 0 then
      res.numRow == BEFORE_FIRST && res.firstRow == 0 && (res.info.rowCount > 0 ==> res.info.rowCountSent > 0)
    else res.numRow == k - 1 && res.firstRow <= k - 1 < res.firstRow + res.info.rowCountSent
  }

  // ---------- Loading one page ----------

  /** A page's header on the wire is taken off exactly, whatever comes after it. */
  lemma HeaderTaken(i: Info, header: seq<byte>, asked: nat, n: nat, updateable: bool, types: seq<VkType>,
                    more: seq<byte>)
    requires Announces(header, asked, n, updateable, types) && Starts(i, asked, updateable, types)
    ensures CheckReply(i, header + more) == Checked(ParseHeader(i, HeaderText(header)).info, HeaderText(header), more)
    ensures AnnouncesFrom(i, HeaderText(header), n, updateable, types)
  {
    hide ParseHeader, ReadHeader, HeaderText, Types, FieldsFit, NamesFit;
    HeaderPrefix(header, more);
    assert (header + more)[..|header|] == header && (header + more)[|header|..] == more;
    assert AnnouncesFrom(i, HeaderText(header), n, updateable, types);
  }

  lemma BodyTaken(i: Info, rows: seq<Row>, updateable: bool, types: seq<VkType>, more: seq<byte>)
    requires types != [] && RowsOk(rows, types, updateable)
    requires Types(i.columns) == types && i.updateable == updateable && i.rowCountSent == |rows|
    ensures Body(i, EncodeRows(rows) + more) == Ok(Cells(rows), more)
  {
    hide DecodeRows, RowsOk, EncodeRows, Cells, Types;
    RowsDecode(types, updateable, 0, rows, more);
    if rows == [] {
      NoRows(more);
    }
  }

  lemma NoRows(more: seq<byte>)
    ensures EncodeRows([]) + more == more && Cells([]) == []
  {
  }

  /** What a page's header makes of the fields its load starts from. */
  function PageInfo(res: Res, p: Page): Info {
    ParseHeader(FetchInfo(res), HeaderText(p.header)).info
  }

  /** The result once page p has replaced the one before it. */
  function Turned(res: Res, p: Page): Res {
    res.(firstRow := res.firstRow + res.info.rowCountSent, page := Cells(p.rows),
         info := res.info.(ok := true, errorCode := 0, rowCountSent := |p.rows|,
                           columns := SharedColumns(res, PageInfo(res, p), HeaderText(p.header))))
  }

  /** With a page next on the wire, loading takes exactly that page. */
  lemma PageLoaded(res: Res, net: Net, p: Page, asked: nat, updateable: bool, types: seq<VkType>, more: seq<byte>)
    requires types != [] && PageOk(p, asked, updateable, types) && Starts(FetchInfo(res), asked, updateable, types)
    requires net.incoming == p.header + (EncodeRows(p.rows) + more)
    requires RequestSize(res) <= net.room
    requires Range(res).0 == res.firstRow + res.info.rowCountSent
    ensures LoadPage(res, net) == Loaded(Turned(res, p), Net(net.room - RequestSize(res), more))
    ensures AnnouncesFrom(FetchInfo(res), HeaderText(p.header), |p.rows|, updateable, types)
  {
    hide CheckReply, Body, FetchRequest, FetchInfo, EncodeRows, Cells, RowsOk, SharedColumns, Announces, HeaderText;
    hide ParseHeader, Types, NamesFit, Starts;
    HeaderTaken(FetchInfo(res), p.header, asked, |p.rows|, updateable, types, EncodeRows(p.rows) + more);
    CheckedClean(FetchInfo(res), net.incoming);
    var c := CheckReply(FetchInfo(res), net.incoming);
    BodyTaken(c.info, p.rows, updateable, types, more);
  }

  /** The length of the request for the next page. */
  function RequestSize(res: Res): nat {
    |FetchRequest(res.info.statementId, Range(res).0, Range(res).1)|
  }

  /** The requested rows follow those already received, lie inside the table and are at
      most a page; nothing wraps. */
  lemma RangeInside(res: Res)
    requires res.firstRow + res.info.rowCountSent < res.info.rowCount < 0x8000_0000
    requires res.pageSize < 0x8000_0000
    ensures var (first, last) := Range(res);
            && first == res.firstRow + res.info.rowCountSent
            && first <= last < res.info.rowCount
            && last == Bytes.Min(first + PageLimit(res) - 1, res.info.rowCount - 1)
            && FetchInfo(res).rowCountSent == last - first + 1 == Asked(first, res.info.rowCount, PageLimit(res))
  {
  }

  function TurnedWindow(w: Window): Window
    requires w.coming != []
  {
    Window(w.seen + w.shown, w.coming[0].rows, w.coming[1..])
  }

  lemma TurnedTable(w: Window)
    requires w.coming != []
    ensures Table(TurnedWindow(w)) == Table(w)
  {
    var a, b, c := w.seen + w.shown, w.coming[0].rows, PagesRows(w.coming[1..]);
    assert a + (b + c) == a + b + c;
  }

  lemma PagesOkTail(pages: seq<Page>, next: nat, n: nat, limit: nat, updateable: bool, types: seq<VkType>)
    requires PagesOk(pages, next, n, limit, updateable, types) && pages != []
    ensures PageOk(pages[0], Asked(next, n, limit), updateable, types)
    ensures PagesOk(pages[1..], next + |pages[0].rows|, n, limit, updateable, types)
    ensures pages[0].rows != [] && RowsOk(pages[0].rows, types, updateable)
  {
  }

  lemma TurnedShows(res: Res, net: Net, room: nat, w: Window, n: nat, types: seq<VkType>, updateable: bool,
                    tail: seq<byte>)
    requires Shows(res, net, w, n, types, updateable, tail) && w.coming != []
    requires AnnouncesFrom(FetchInfo(res), HeaderText(w.coming[0].header), |w.coming[0].rows|, updateable, types)
    ensures Shows(Turned(res, w.coming[0]), Net(room, PagesBytes(w.coming[1..]) + tail),
                  TurnedWindow(w), n, types, updateable, tail)
  {
    hide PagesOk, RowsOk, Cells, Types, NamesFit, PagesBytes, PagesRows, FetchInfo, ParseHeader, HeaderText, Get;
    TurnedTable(w);
    PagesOkTail(w.coming, |w.seen| + |w.shown|, n, PageLimit(res), updateable, types);
    hide Table;
  }

  /** Loading turns to the server's next page, for any page size it chose. */
  lemma LoadNext(res: Res, net: Net, w: Window, n: nat, types: seq<VkType>, updateable: bool, tail: seq<byte>)
    requires Shows(res, net, w, n, types, updateable, tail)
    requires res.firstRow + res.info.rowCountSent < |Table(w)|
    requires RequestSize(res) <= net.room
    ensures w.coming != [] && w.coming[0].rows != []
    ensures LoadPage(res, net) == Loaded(Turned(res, w.coming[0]),
                                         Net(net.room - RequestSize(res), PagesBytes(w.coming[1..]) + tail))
    ensures AnnouncesFrom(FetchInfo(res), HeaderText(w.coming[0].header), |w.coming[0].rows|, updateable, types)
  {
    hide LoadPage, RequestSize, PagesOk, PageOk, RowsOk, Cells, Types, NamesFit;
    RangeInside(res);
    assert PagesRows([]) == [];
    assert w.coming != [];
    assert Starts(FetchInfo(res), Asked(Range(res).0, n, PageLimit(res)), updateable, types);
    hide PagesRows, Table, Range, FetchInfo, Asked, PageLimit;
    hide Turned, PagesBytes, EncodeRows, AnnouncesFrom;
    var p := w.coming[0];
    PagesOkTail(w.coming, |w.seen| + |w.shown|, n, PageLimit(res), updateable, types);
    OnWire(w.coming, tail);
    var more := PagesBytes(w.coming[1..]) + tail;
    PageLoaded(res, net, p, Asked(Range(res).0, n, PageLimit(res)), updateable, types, more);
  }

  lemma OnWire(pages: seq<Page>, tail: seq<byte>)
    requires pages != []
    ensures PagesBytes(pages) + tail
         == pages[0].header + (EncodeRows(pages[0].rows) + (PagesBytes(pages[1..]) + tail))
  {
    hide EncodeRows;
    Regrouped(pages[0].header, EncodeRows(pages[0].rows), PagesBytes(pages[1..]), tail);
  }

  lemma Regrouped(a: seq<byte>, b: seq<byte>, c: seq<byte>, d: seq<byte>)
    ensures a + b + c + d == a + (b + (c + d))
  {
  }

  // ---------- The size of a request ----------

  const MAX_REQUEST := 200

  /** A request is well inside the 2048 bytes it is formatted in. */
  lemma RequestSmall(res: Res)
    requires -0x8000_0000 <= res.info.statementId < 0x8000_0000
    ensures RequestSize(res) <= MAX_REQUEST
  {
    hide Signed, Range;
    SignedLength(res.info.statementId);
    SignedLength(Int32(Range(res).0));
    SignedLength(Int32(Range(res).1));
  }

  // ---------- Stepping through the table ----------

  /** Cell (k, c) of the table, as delivered. */
  function TableCell(table: seq<Row>, k: nat, c: nat): Value
    requires k < |table| && c < |table[k].cells|
  {
    Normal(table[k].cells[c])
  }

  /** The sizes the row index is computed with stay below 2^32. */
  lemma IndexInside(i: nat, sent: nat, n: nat, w: nat, c: nat)
    requires i < sent <= n && c < w && n * w < TWO_32
    ensures i * w + c < sent * w < TWO_32
  {
    assert (i + 1) * w <= sent * w <= n * w;
  }

  lemma ShownAt(w: Window, i: nat)
    requires i < |w.shown|
    ensures |w.seen| + i < |Table(w)| && Table(w)[|w.seen| + i] == w.shown[i]
  {
  }

  /** The field getter reads the table's cell through the window. */
  lemma FieldIsCell(res: Res, net: Net, w: Window, n: nat, types: seq<VkType>, updateable: bool, tail: seq<byte>,
                    k: nat, c: nat)
    requires Shows(res, net, w, n, types, updateable, tail) && At(res, k + 1) && c < |types|
    ensures k < |Table(w)| && |Table(w)[k].cells| == |types|
    ensures ElementIndex(res, c) < |res.page|
    ensures Field(res, c) == Some(TableCell(Table(w), k, c))
  {
    hide PagesOk, PagesBytes, Table, HasType, Normal, PrefixOk, ElementIndex, Cells;
    var i := k - res.firstRow;
    ShownAt(w, i);
    ShownFits(w);
    IndexInside(i, |w.shown|, n, |types|, c);
    IndexOf(res, i, c);
    assert RowOk(w.shown[i], types, updateable);
    CellAt(w.shown, types, updateable, i, c);
  }

  /** Without wrapping, the element index is the one of row i of the page. */
  lemma IndexOf(res: Res, i: nat, c: nat)
    requires res.numRow == res.firstRow + i && i < TWO_32 && i * |res.info.columns| + c < TWO_32
    ensures ElementIndex(res, c) == i * |res.info.columns| + c
  {
    assert i * |res.info.columns| >= 0;
  }

  lemma ShownFits(w: Window)
    ensures |w.seen| + |w.shown| <= |Table(w)|
  {
  }

  /** The network still accepts one request for each coming page. */
  ghost predicate Roomy(res: Res, net: Net, w: Window) {
    -0x8000_0000 <= res.info.statementId < 0x8000_0000 && net.room >= |w.coming| * MAX_REQUEST
  }

  /** Loading when row k follows the window: the window then starts with row k. */
  lemma LoadStep(r: Res, net: Net, w: Window, n: nat, types: seq<VkType>, updateable: bool, tail: seq<byte>, k: nat)
    requires Shows(r, net, w, n, types, updateable, tail) && Roomy(r, net, w)
    requires r.numRow == k == r.firstRow + r.info.rowCountSent < |Table(w)|
    ensures w.coming != [] && Table(TurnedWindow(w)) == Table(w)
    ensures var l := LoadPage(r, net);
            && l.Loaded? && Shows(l.res, l.net, TurnedWindow(w), n, types, updateable, tail)
            && At(l.res, k + 1) && Roomy(l.res, l.net, TurnedWindow(w))
  {
    hide LoadPage, RowsOk, Cells, PagesOk, PagesBytes, Types, Table, Range, RequestSize;
    RequestSmall(r);
    RoomForOne(r, net, w);
    LoadNext(r, net, w, n, types, updateable, tail);
    TurnedShows(r, net, net.room - RequestSize(r), w, n, types, updateable, tail);
    TurnedTable(w);
  }

  /** One more row: the pointer moves to row k, a page is loaded when row k is not in the
      window, and the table seen through the window stays the same. */
  lemma StepRefines(res: Res, net: Net, error: int, w: Window, n: nat, types: seq<VkType>, updateable: bool,
                    tail: seq<byte>, k: nat)
    returns (w': Window)
    requires Shows(res, net, w, n, types, updateable, tail) && At(res, k) && Roomy(res, net, w)
    requires k < |Table(w)|
    ensures Table(w') == Table(w)
    ensures if k < res.firstRow + res.info.rowCountSent then w' == w else w.coming != [] && w' == TurnedWindow(w)
    ensures var s := NextRow(res, net, error);
            && s.GotRow? && (error == 0 ==> s.error == 0)
            && Shows(s.res, s.net, w', n, types, updateable, tail) && At(s.res, k + 1) && Roomy(s.res, s.net, w')
  {
    hide LoadPage, RowsOk, Cells, PagesOk, PagesBytes, Types, Table;
    ShownFits(w);
    var r := res.(numRow := U32(res.numRow + 1));
    assert r.numRow == k && Shows(r, net, w, n, types, updateable, tail);
    w' := w;
    if k >= r.firstRow + r.info.rowCountSent {
      LoadStep(r, net, w, n, types, updateable, tail, k);
      w' := TurnedWindow(w);
    }
  }

  lemma RoomForOne(res: Res, net: Net, w: Window)
    requires Roomy(res, net, w) && RequestSize(res) <= MAX_REQUEST && res.firstRow + res.info.rowCountSent < |Table(w)|
    requires |w.seen| == res.firstRow && |w.shown| == res.info.rowCountSent
    ensures w.coming != [] && RequestSize(res) <= net.room
    ensures net.room - RequestSize(res) >= (|w.coming| - 1) * MAX_REQUEST
  {
    assert PagesRows([]) == [];
    assert w.coming != [];
  }

  /** With every row of the pages read, the stream stands at what follows them. */
  lemma AllTaken(res: Res, net: Net, w: Window, n: nat, types: seq<VkType>, updateable: bool, tail: seq<byte>)
    requires Shows(res, net, w, n, types, updateable, tail) && At(res, |Table(w)|)
    ensures w.coming == [] && net.incoming == tail && res.firstRow + res.info.rowCountSent == |Table(w)|
  {
    hide RowsOk, Cells, Types, PageOk;
    if w.coming != [] {
      PagesOkTail(w.coming, |w.seen| + |w.shown|, n, PageLimit(res), updateable, types);
    }
    assert w.coming != [] ==> |PagesRows(w.coming)| > 0;
    assert PagesBytes([]) + tail == tail;
  }

  /** After the last row the cursor reports the end, and the stream stands behind the pages. */
  lemma EndRefines(res: Res, net: Net, error: int, w: Window, n: nat, types: seq<VkType>, updateable: bool,
                   tail: seq<byte>)
    requires Shows(res, net, w, n, types, updateable, tail) && At(res, |Table(w)|) && n == |Table(w)|
    ensures w.coming == [] && net.incoming == tail
    ensures var s := NextRow(res, net, error); s.AtEnd? && s.net == net && s.error == error
  {
    hide RowsOk, Cells, Types, PagesOk;
    AllTaken(res, net, w, n, types, updateable, tail);
  }

  /** When rows are still missing then, the next load reads what follows the pages. */
  lemma MissingLoads(res: Res, net: Net, error: int, w: Window, n: nat, types: seq<VkType>, updateable: bool,
                     tail: seq<byte>)
    requires Shows(res, net, w, n, types, updateable, tail) && At(res, |Table(w)|) && |Table(w)| < n
    ensures var r := res.(numRow := U32(res.numRow + 1));
            && Starts(FetchInfo(r), Asked(|Table(w)|, n, PageLimit(res)), updateable, types)
            && net.incoming == tail
            && NextRow(res, net, error) == match LoadPage(r, net)
                                           case Loaded(r', net') => GotRow(r', net', 0)
                                           case Failed(r', e) => LoadFailed(r', e)
  {
    hide RowsOk, Cells, Types, PagesOk, LoadPage, NamesFit;
    AllTaken(res, net, w, n, types, updateable, tail);
    RangeInside(res.(numRow := U32(res.numRow + 1)));
    hide Table;
  }

  // ---------- How many pages are asked for ----------

  /** Every page holds all the rows its request asks for. */
  ghost predicate Filled(pages: seq<Page>, next: nat, n: nat, limit: nat) {
    pages != [] ==>
      && next < n && |pages[0].rows| == Asked(next, n, limit)
      && Filled(pages[1..], next + |pages[0].rows|, n, limit)
  }

  /** Filled pages are as many as the missing rows divided by the page size, rounded up. */
  lemma {:induction false} FilledCount(pages: seq<Page>, next: nat, n: nat, limit: nat)
    requires limit > 0 && next <= n && Filled(pages, next, n, limit) && |PagesRows(pages)| == n - next
    ensures |pages| == (n - next + limit - 1) / limit
  {
    if pages == [] {
      CeilZero(limit);
    } else {
      FilledCount(pages[1..], next + |pages[0].rows|, n, limit);
      CeilStep(n - next, limit);
    }
  }

  lemma CeilZero(limit: nat)
    requires limit > 0
    ensures (limit - 1) / limit == 0
  {
  }

  lemma CeilStep(m: nat, limit: nat)
    requires limit > 0 && m > 0
    ensures (m + limit - 1) / limit == 1 + (if m >= limit then (m - limit + limit - 1) / limit else (limit - 1) / limit)
  {
    if m >= limit {
      assert m + limit - 1 == limit + (m - 1);
      DivStep(m - 1, limit);
    } else {
      DivStep(m - 1, limit);
      CeilZero(limit);
    }
  }

  lemma DivStep(x: nat, d: nat)
    requires d > 0
    ensures (x + d) / d == x / d + 1
    ensures x < d ==> x / d == 0
  {
    var q, r := x / d, x % d;
    assert x == q * d + r;
    assert x + d == (q + 1) * d + r;
    DivUnique(x + d, d, q + 1, r);
  }

  lemma DivUnique(x: nat, d: nat, q: nat, r: nat)
    requires d > 0 && x == q * d + r && r < d
    ensures x / d == q
  {
    var p := x / d;
    assert x == p * d + x % d;
    assert p < q ==> (p + 1) * d <= q * d;
    assert p > q ==> (q + 1) * d <= p * d;
  }

  // ---------- A server's actual replies ----------

  /** A reply rendered with all its lines, in any order, is a page as required above,
      however many rows were asked for. */
  lemma RenderedPage(d: Heading, rows: seq<Row>, asked: nat)
    requires HeadingOk(d) && |Rendered(d)| < MAX_HEADER
    requires rows != [] && |rows| == d.sent && RowsOk(rows, d.types, d.updateable)
    ensures Narrow(Rendered(d))
    ensures PageOk(Page(HeadingBytes(d), rows), asked, d.updateable, d.types)
  {
    HeadingRead(d);
    hide ParseHeader, Rendered, Lines, ReadHeader, RowsOk, HeaderText, TypeList, FieldsFit, NamesFit;
    HeadingParsed(d, NO_INFO);
    forall i: Info
      ensures AnnouncesFrom(i, HeaderText(HeadingBytes(d)), |rows|, d.updateable, d.types)
    {
      HeadingParsed(d, i);
    }
    hide AnnouncesFrom, HeadingOk;
  }

  /** So is a reply of nothing but its status line, with exactly the rows asked for. */
  lemma BarePage(tag: string, rows: seq<Row>, updateable: bool, types: seq<VkType>)
    requires TagOk(tag) && |tag| < 1000
    requires rows != [] && RowsOk(rows, types, updateable)
    ensures PageOk(Page(BareBytes(tag), rows), |rows|, updateable, types)
  {
    BareRead(tag);
    hide ParseHeader, ReadHeader, RowsOk, HeaderText, BareText, FieldsFit, NamesFit, Types;
    BareParsed(tag, NO_INFO);
    forall i: Info | Starts(i, |rows|, updateable, types)
      ensures AnnouncesFrom(i, HeaderText(BareBytes(tag)), |rows|, updateable, types)
    {
      BareParsed(tag, i);
    }
    hide AnnouncesFrom;
  }
}
