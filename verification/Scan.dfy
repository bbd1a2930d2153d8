/** A whole scan against a server that holds a table, through every layer. */
module Scan {
  import opened Bytes
  import opened Text
  import opened Codec
  import opened Stream
  import opened ResultArena
  import opened Replies
  import opened Headings
  import opened Protocol
  import opened Cursor
  import opened Fetch
  import opened Session
  import opened Driver
  import opened Pager
  import opened Client
  import opened PyCursor
  import Aliases
  import Base64

  // ---------- Scans of the objects ----------

  /** Over pages that are right, to the end of the table or up to one that breaks, the scan
      never steps outside the page held. */
  lemma {:induction false} ScanIndexable(res: Res, net: Net, w: Window, n: nat, types: seq<VkType>, updateable: bool,
                                         tail: seq<byte>, k: nat)
    requires Shows(res, net, w, n, types, updateable, tail) && Cursor.At(res, k) && Roomy(res, net, w)
             && k <= |Table(w)|
    requires |Table(w)| < n ==> Breaks(tail, Asked(|Table(w)|, n, PageLimit(res)), updateable, types)
    ensures res.info.rowCount < TWO_32 && Indexable(res, net, 0)
    decreases |Table(w)| - k
  {
    hide Shows, Cursor.At, Table, Roomy, RowValues, ElementIndex, LoadPage, Breaks, Loads;
    Wide(res, net, w, n, types, updateable, tail);
    RowsRunOut(res, net, 0);
    StepKeeps(res, net);
    if k < |Table(w)| {
      var w' := StepRefines(res, net, 0, w, n, types, updateable, tail, k);
      LimitKept(res, net);
      hide Protocol.NextRow, PageLimit;
      var s := Protocol.NextRow(res, net, 0);
      Wide(s.res, s.net, w', n, types, updateable, tail);
      forall c | 0 <= c < |s.res.info.columns|
        ensures ElementIndex(s.res, c) < |s.res.page|
      {
        FieldIsCell(s.res, s.net, w', n, types, updateable, tail, k, c);
      }
      ScanIndexable(s.res, s.net, w', n, types, updateable, tail, k + 1);
    } else if k < n {
      MissingLoads(res, net, 0, w, n, types, updateable, tail);
      BrokenLoad(res.(numRow := U32(res.numRow + 1)), net, Asked(|Table(w)|, n, PageLimit(res)), updateable, types);
    } else {
      EndRefines(res, net, 0, w, n, types, updateable, tail);
    }
  }

  /** A server's answer to an execute: a header that opens a result of n rows, the first page,
      and pages that answer the loads. */
  datatype Answers = Answers(header: seq<byte>, first: seq<Codec.Row>, coming: seq<Page>, n: nat,
                             updateable: bool, types: seq<VkType>)

  ghost predicate AnswersOk(a: Answers, pageSize: nat) {
    && a.types != [] && Opens(a.header, a.n, |a.first|, a.updateable, a.types)
    && RowsOk(a.first, a.types, a.updateable) && (a.n > 0 ==> a.first != [])
    && PagesOk(a.coming, |a.first|, a.n, LimitOf(pageSize), a.updateable, a.types)
    && |TableOf(a)| <= a.n && a.n * |a.types| < TWO_32
  }

  /** The rows the server sends. */
  function TableOf(a: Answers): seq<Codec.Row> {
    a.first + PagesRows(a.coming)
  }

  function Wire(a: Answers, tail: seq<byte>): seq<byte> {
    a.header + (EncodeRows(a.first) + (PagesBytes(a.coming) + tail))
  }

  /** Execute and fetchall on the objects, however the network cuts the bytes up: every row
      once and in order when the pages bring the n rows announced, for any page sizes; an
      error when they stop short and what follows breaks. */
  method ExecuteFetchAll(cnx: Stream.Connection, connection: Connection4D, message: seq<byte>, pageSize: nat,
                         ghost a: Answers, ghost tail: seq<byte>)
    returns (rows: Rows)
    requires cnx.Valid() && connection.connected && pageSize < TWO_31 && AnswersOk(a, pageSize)
    requires cnx.Pending() == Wire(a, tail)
    requires cnx.socket.room >= |message| + |a.coming| * MAX_REQUEST
    requires |TableOf(a)| < a.n ==> Breaks(tail, Asked(|TableOf(a)|, a.n, LimitOf(pageSize)), a.updateable, a.types)
    modifies cnx, cnx.rbuf, cnx.socket
    ensures |TableOf(a)| == a.n ==> rows == Rows.Rows(Delivered(TableOf(a), 0))
    ensures |TableOf(a)| < a.n ==> rows.RaiseAll? && rows.e.OperationalError? && rows.e.code != 0
  {
    hide Opens, RowsOk, PagesOk, EncodeRows, PagesBytes, PagesRows, Breaks, Shows, ReadAnswer, LimitOf;
    hide Arena.Linked, Arena.Memory, Shape, Result.PageIs, Indexable, Fetch.FetchAll, Delivered, Table;
    ghost var room := cnx.socket.room - |message|;
    ghost var w := ExecuteShows(a.header, a.first, a.coming, a.n, a.updateable, a.types, pageSize, room, tail);
    var broken, o, r;
    ghost var res;
    broken, o, r, res := ExecuteStatement(cnx, message, pageSize);
    ScanIndexable(res, NetOf(cnx), w, a.n, a.types, a.updateable, tail, 0);
    if |TableOf(a)| == a.n {
      FetchAllTable(res, NetOf(cnx), w, a.types, a.updateable, tail, 0);
    } else {
      BrokenScan(res, NetOf(cnx), w, a.n, a.types, a.updateable, tail, 0);
    }
    var cursor := new DbCursor(connection, r);
    rows := cursor.FetchAll(res);
  }

  // ---------- Such servers exist ----------

  /** A header is about as long as its values. */
  lemma {:induction false} UptoLength(status: string, lines: seq<Line>, n: nat, k: nat)
    requires n <= |lines| && forall i :: 0 <= i < |lines| ==> |lines[i].name| + |lines[i].value| + 3 <= k
    ensures |Upto(status, lines, n)| <= |status| + 2 + n * k
  {
    if n > 0 {
      UptoLength(status, lines, n - 1, k);
    }
  }

  const EXAMPLE := Heading("001", 1, [VK_LONG], ["a"], 2, 1, false, USUAL)

  /** A table of two rows of one number: the first with all its header lines, the second
      behind a header of nothing but its status line. */
  lemma Example(pageSize: nat) returns (a: Answers)
    ensures AnswersOk(a, pageSize) && |TableOf(a)| == a.n == 2
  {
    hide HeadingOk, Rendered, PageOk, RowsOk, PagesRows, HeadingBytes, Narrow, Opens, BareBytes, RowCountRead;
    ExampleHeading();
    HeadingOpens(EXAMPLE);
    ExampleCount();
    var first := OneNumber(1);
    var second := OneNumber(2);
    ExampleTag();
    BarePage("002", second, false, [VK_LONG]);
    a := Answers(HeadingBytes(EXAMPLE), first, [Page(BareBytes("002"), second)], 2, false, [VK_LONG]);
    OnePage(a.coming[0]);
    assert a.coming[1..] == [];
    assert Opens(a.header, a.n, |a.first|, a.updateable, a.types);
    assert Asked(1, 2, LimitOf(pageSize)) == 1;
    assert PagesOk(a.coming, 1, 2, LimitOf(pageSize), false, [VK_LONG]);
    assert |TableOf(a)| == 2;
  }

  lemma OnePage(p: Page)
    ensures PagesRows([p]) == p.rows
  {
    assert [p][1..] == [];
  }

  lemma OneNumber(n: byte) returns (rows: seq<Codec.Row>)
    ensures |rows| == 1 && RowsOk(rows, [VK_LONG], false)
  {
    rows := [Codec.Row.Row(Absent, [Fixed([n, 0, 0, 0])])];
  }

  lemma ExampleTag()
    ensures TagOk("002")
  {
  }

  lemma ExampleCount()
    ensures Ordered(USUAL) && RowCountRead(EXAMPLE) == 2
  {
    assert USUAL[4] == 4 && USUAL[5] == 5;
    assert Ordered(USUAL) by { ExampleOrder(); }
    assert Place(USUAL, 4) == 4 && Place(USUAL, 5) == 5;
  }

  lemma ExampleOrder()
    ensures Ordered(USUAL)
  {
    forall n | 0 <= n < 8
      ensures n in USUAL
    {
      assert USUAL[n] == n;
    }
  }

  lemma ExampleHeading()
    ensures Writable(EXAMPLE) && HeadingOk(EXAMPLE) && |Rendered(EXAMPLE)| < MAX_HEADER
  {
    ExampleOk();
    hide Writable, HeadingOk, LineOf;
    forall k | 0 <= k < 8
      ensures |Lines(EXAMPLE)[k].name| + |Lines(EXAMPLE)[k].value| + 3 <= 40
    {
      ExampleLine(USUAL[k]);
    }
    UptoLength(StatusOf(EXAMPLE), Lines(EXAMPLE), 8, 40);
  }

  lemma ExampleOk()
    ensures Writable(EXAMPLE) && HeadingOk(EXAMPLE) && |AliasValue(EXAMPLE.names, false)| == 4
    ensures forall k :: 0 <= k < 8 ==> USUAL[k] < 8
  {
    ExampleOrder();
    ExampleName();
    hide Ordered;
    Base64.EncodedLength(Raw("[a]"));
    assert "[a]" + "" == "[a]";
    hide Base64.Encode;
  }

  lemma ExampleName()
    ensures Aliases.Joined(["a"]) == "[a]" && NamesOk(["a"])
  {
    assert Aliases.Escape("a") == "a" by { assert "a"[1..] == ""; }
  }

  lemma ExampleLine(n: nat)
    requires n < 8 && Writable(EXAMPLE) && |AliasValue(EXAMPLE.names, false)| == 4
    ensures |LineOf(EXAMPLE, n).name| + |LineOf(EXAMPLE, n).value| + 3 <= 40
  {
    hide AliasValue, Ordered;
  }
}
