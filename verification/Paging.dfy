/** The page loads of a scan: against any server their ranges follow one another inside the
    table, and with filled pages they are as many as the page size makes necessary. */
module Paging {
  import opened Bytes
  import opened Codec
  import opened Header
  import opened Protocol
  import opened Cursor
  import opened Fetch
  import opened Session

  /** What holds of every result, whatever the server sends. */
  predicate Bounded(res: Res) {
    res.info.rowCount < TWO_31 && res.info.rowCountSent < TWO_31 && res.firstRow < TWO_31 && res.pageSize < TWO_31
  }

  /** Every load asks for rows behind those received, at least one, at most a page, all in the
      table; nothing wraps. */
  lemma LoadInside(res: Res)
    requires Bounded(res) && Loads(res)
    ensures var (first, last) := Range(Advanced(res));
            && first == res.firstRow + res.info.rowCountSent
            && first <= last < res.info.rowCount
            && last == Bytes.Min(first + PageLimit(res) - 1, res.info.rowCount - 1)
  {
    hide Range;
    RangeInside(Advanced(res));
  }

  /** A new result is bounded, */
  lemma AnswerBounded(pageSize: nat, room: nat, s: seq<byte>)
    requires pageSize < TWO_31
    ensures ReadAnswer(pageSize, room, s).Answered? ==> Bounded(ReadAnswer(pageSize, room, s).link.res)
  {
    hide CheckReply, Body, FromSignedLe;
    if CheckReply(NO_INFO, s).Checked? {
      CheckBounded(NO_INFO, s);
    }
  }

  /** and every step keeps it so. */
  lemma StepBounded(res: Res, net: Net, error: int)
    requires Bounded(res)
    ensures Bounded(NextRow(res, net, error).res)
  {
    hide LoadPage;
    if Loads(res) {
      LoadBounded(Advanced(res), net) by { LoadInside(res); }
    }
  }

  lemma LoadBounded(res: Res, net: Net)
    requires Bounded(res) && Range(res).0 == res.firstRow + res.info.rowCountSent < res.info.rowCount
    ensures Bounded(LoadPage(res, net).res)
  {
    RangeInside(res);
    var i := FetchInfo(res);
    hide CheckReply, Body, FetchRequest, Range, SharedColumns, FetchInfo;
    if CheckReply(i, net.incoming).Checked? {
      CheckBounded(i, net.incoming);
    }
  }

  /** A step moves the row pointer by one, whatever happens; without a load nothing else
      changes, and a load that succeeds clears the error number. */
  lemma StepMoves(res: Res, net: Net, error: int)
    ensures var k := (res.numRow + 1) % 0x1_0000_0000;
            match NextRow(res, net, error)
            case GotRow(r, n, e) =>
              && r.numRow == k < res.info.rowCount
              && (if Loads(res) then e == 0 else r == res.(numRow := k) && n == net && e == error)
            case AtEnd(r, n, e) =>
              && !Loads(res) && r == res.(numRow := k) && k >= res.info.rowCount && n == net && e == error
            case LoadFailed(r, _) => Loads(res) && r.numRow == k < res.info.rowCount
  {
    hide PageReply, Range, SharedColumns;
  }

  // ---------- The loads of a scan ----------

  /** One load: the rows asked for, and how many came, if any did. */
  datatype PageLoad = PageLoad(first: nat, last: nat, brought: Option<nat>)

  function PageLoads(res: Res, net: Net, error: int): seq<PageLoad>
    requires res.info.rowCount < TWO_32
    decreases Left(res)
  {
    RowsRunOut(res, net, error);
    var (first, last) := Range(Advanced(res));
    if res.info.resultType == UPDATE_COUNT then [] else
      match NextRow(res, net, error)
      case AtEnd(_, _, _) => []
      case LoadFailed(_, _) => [PageLoad(first, last, None)]
      case GotRow(r, n, e) =>
        (if Loads(res) then [PageLoad(first, last, Some(r.info.rowCountSent))] else []) + PageLoads(r, n, e)
  }

  /** Each load starts where the rows received so far end, at `next`, and stays in the n rows;
      only the last may fail. */
  predicate Contiguous(loads: seq<PageLoad>, next: nat, n: nat, limit: nat)
    requires limit > 0
  {
    loads != [] ==>
      && loads[0].first == next <= loads[0].last < n && loads[0].last == Bytes.Min(next + limit - 1, n - 1)
      && match loads[0].brought
         case None => |loads| == 1
         case Some(sent) => Contiguous(loads[1..], next + sent, n, limit)
  }

  /** So it is for every scan, against any server. */
  lemma {:induction false} LoadsContiguous(res: Res, net: Net, error: int)
    requires Bounded(res)
    ensures Contiguous(PageLoads(res, net, error), res.firstRow + res.info.rowCountSent,
                       res.info.rowCount, PageLimit(res))
    decreases Left(res)
  {
    hide Range, NextRow, Loads, Left, PageLimit, Contiguous, PageLoads;
    StepBounded(res, net, error);
    StepWindow(res, net, error);
    LoadsStep(res, net, error);
    var n, limit := res.info.rowCount, PageLimit(res);
    NoLoads(res.firstRow + res.info.rowCountSent, n, limit);
    if Loads(res) {
      LoadInside(res);
    }
    var s := NextRow(res, net, error);
    if s.LoadFailed? {
      var last := PageLoad(Range(Advanced(res)).0, Range(Advanced(res)).1, None);
      LoadAdded(last, [], n, limit);
      assert [last] + [] == [last];
    }
    if s.GotRow? && res.info.resultType != UPDATE_COUNT {
      LoadsContiguous(s.res, s.net, s.error);
      if Loads(res) {
        LoadAdded(PageLoad(Range(Advanced(res)).0, Range(Advanced(res)).1, Some(s.res.info.rowCountSent)),
                  PageLoads(s.res, s.net, s.error), n, limit);
      }
    }
  }

  /** Whatever bytes answer an execute and the loads behind it. */
  lemma EveryScan(pageSize: nat, room: nat, s: seq<byte>)
    requires pageSize < TWO_31 && ReadAnswer(pageSize, room, s).Answered?
    ensures var link := ReadAnswer(pageSize, room, s).link;
            && link.res.info.rowCount < TWO_32
            && Contiguous(PageLoads(link.res, link.net, 0), link.res.firstRow + link.res.info.rowCountSent,
                          link.res.info.rowCount, PageLimit(link.res))
  {
    hide PageLoads, Contiguous, PageLimit, ReadAnswer;
    AnswerBounded(pageSize, room, s);
    var link := ReadAnswer(pageSize, room, s).link;
    LoadsContiguous(link.res, link.net, 0);
  }

  lemma NoLoads(next: nat, n: nat, limit: nat)
    requires limit > 0
    ensures Contiguous([], next, n, limit)
  {
  }

  /** One load in front of those that follow on it. */
  lemma LoadAdded(l: PageLoad, more: seq<PageLoad>, n: nat, limit: nat)
    requires limit > 0 && l.first <= l.last < n && l.last == Bytes.Min(l.first + limit - 1, n - 1)
    requires if l.brought.None? then more == [] else Contiguous(more, l.first + l.brought.value, n, limit)
    ensures Contiguous([l] + more, l.first, n, limit)
  {
    assert ([l] + more)[1..] == more;
  }

  lemma LoadsStep(res: Res, net: Net, error: int)
    requires res.info.rowCount < TWO_32
    ensures NextRow(res, net, error).GotRow? ==>
              && NextRow(res, net, error).res.info.rowCount == res.info.rowCount
              && (res.info.resultType != UPDATE_COUNT ==> Left(NextRow(res, net, error).res) < Left(res))
    ensures var (first, last) := Range(Advanced(res));
            PageLoads(res, net, error) ==
              if res.info.resultType == UPDATE_COUNT then [] else
                match NextRow(res, net, error)
                case AtEnd(_, _, _) => []
                case LoadFailed(_, _) => [PageLoad(first, last, None)]
                case GotRow(r, n, e) =>
                  if Loads(res) then [PageLoad(first, last, Some(r.info.rowCountSent))] + PageLoads(r, n, e)
                  else PageLoads(r, n, e)
  {
    RowsRunOut(res, net, error);
    hide Range, Loads, RowValues, LoadPage, Left;
    assert NextRow(res, net, error).GotRow? ==> res.info.rowCount > 0;
    LoadKeepsCount(Advanced(res), net);
    if NextRow(res, net, error).GotRow? {
      var s := NextRow(res, net, error);
      var more := PageLoads(s.res, s.net, s.error);
      assert [] + more == more;
    }
  }

  lemma LoadKeepsCount(res: Res, net: Net)
    ensures LoadPage(res, net).res.info.rowCount == res.info.rowCount
  {
    hide PageReply, Range, SharedColumns;
  }

  /** Where the window stands after a step. */
  lemma StepWindow(res: Res, net: Net, error: int)
    requires Bounded(res)
    ensures match NextRow(res, net, error)
            case GotRow(r, _, _) =>
              && r.info.rowCount == res.info.rowCount && PageLimit(r) == PageLimit(res)
              && (if Loads(res) then r.firstRow == Range(Advanced(res)).0
                  else r.firstRow == res.firstRow && r.info.rowCountSent == res.info.rowCountSent)
            case AtEnd(_, _, _) => !Loads(res)
            case LoadFailed(_, _) => Loads(res)
  {
    hide PageReply, Range, SharedColumns;
  }

  // ---------- How many there are ----------

  /** In a table the step to row k loads when row k is behind the window. */
  lemma LoadsBehind(res: Res, net: Net, w: Window, types: seq<VkType>, updateable: bool, tail: seq<byte>, k: nat)
    requires Shows(res, net, w, |Table(w)|, types, updateable, tail) && At(res, k) && k < |Table(w)|
    ensures Loads(res) <==> k >= res.firstRow + res.info.rowCountSent
  {
    hide Table, Types, RowsOk, Cells, PagesOk, PagesBytes, NamesFit;
    ShownFits(w);
  }

  /** Against a server that holds a table, a scan loads exactly the coming pages. */
  lemma {:induction false} LoadsArePages(res: Res, net: Net, w: Window, types: seq<VkType>, updateable: bool,
                                         tail: seq<byte>, k: nat)
    requires Shows(res, net, w, |Table(w)|, types, updateable, tail) && At(res, k) && Roomy(res, net, w)
    requires k <= |Table(w)| && res.info.resultType != UPDATE_COUNT
    ensures res.info.rowCount < TWO_32 && |PageLoads(res, net, 0)| == |w.coming|
    decreases |Table(w)| - k
  {
    hide Shows, NextRow, At, Table, Roomy, RowValues, Range, Loads;
    Wide(res, net, w, |Table(w)|, types, updateable, tail);
    RowsRunOut(res, net, 0);
    StepKeeps(res, net);
    if k == |Table(w)| {
      EndRefines(res, net, 0, w, |Table(w)|, types, updateable, tail);
    } else {
      LoadsBehind(res, net, w, types, updateable, tail, k);
      var w' := StepRefines(res, net, 0, w, |Table(w)|, types, updateable, tail, k);
      var s := NextRow(res, net, 0);
      LoadsArePages(s.res, s.net, w', types, updateable, tail, k + 1);
    }
  }

  /** With pages as long as asked for, that is the missing rows divided by the page size,
      rounded up: 100 rows a page when the result has no page size. */
  lemma LoadCount(res: Res, net: Net, w: Window, types: seq<VkType>, updateable: bool, tail: seq<byte>, k: nat)
    requires Shows(res, net, w, |Table(w)|, types, updateable, tail) && At(res, k) && Roomy(res, net, w)
    requires k <= |Table(w)| && res.info.resultType != UPDATE_COUNT
    requires Filled(w.coming, res.firstRow + res.info.rowCountSent, |Table(w)|, PageLimit(res))
    ensures res.info.rowCount < TWO_32
    ensures var missing := res.info.rowCount - (res.firstRow + res.info.rowCountSent);
            && missing >= 0 && |PageLoads(res, net, 0)| == (missing + PageLimit(res) - 1) / PageLimit(res)
  {
    hide PageLoads, PagesOk, RowsOk, Cells, Types, Filled, PageLimit, At, Roomy, PagesBytes, NamesFit, PagesRows;
    LoadsArePages(res, net, w, types, updateable, tail, k);
    FilledCount(w.coming, |w.seen| + |w.shown|, |Table(w)|, PageLimit(res));
  }
}
