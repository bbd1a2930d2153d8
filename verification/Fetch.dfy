/** The Python cursor's fetch methods over the C result, and the question whether they can
    end early without an error. */
module Fetch {
  import opened Bytes
  import opened Text
  import opened Codec
  import opened Header
  import opened Stream
  import opened Protocol
  import opened Cursor

  /** fourd_errno hands out the 64-bit code as an int. */
  function Errno(code: int): (e: int)
    ensures -0x8000_0000 <= e < 0x8000_0000 && (code - e) % 0x1_0000_0000 == 0
    ensures -0x8000_0000 <= code < 0x8000_0000 ==> e == code
  {
    Int32(code)
  }

  /** The current row's values. An element outside the page reads as null here; the server
      model rules it out. */
  function CellAt(res: Res, c: nat): Value {
    if ElementIndex(res, c) < |res.page| then res.page[ElementIndex(res, c)] else Null
  }

  function RowValues(res: Res): (vs: seq<Value>)
    ensures |vs| == |res.info.columns|
    ensures forall c :: 0 <= c < |vs| ==> vs[c] == CellAt(res, c)
  {
    seq(|res.info.columns|, c requires 0 <= c < |res.info.columns| => CellAt(res, c))
  }

  /** One fetchone: a row, nothing more, or an exception. Nothing more carries the network
      state when the stream is still in step. */
  datatype Fetched = One(values: seq<Value>, res: Res, net: Net, error: int)
                   | Nothing(res: Res)
                   | Raised(code: int, res: Res)

  function FetchOne(res: Res, net: Net, error: int): Fetched {
    if res.info.rowCount == 0 || res.info.resultType == UPDATE_COUNT then Nothing(res)
    else match NextRow(res, net, error)
         case GotRow(r, n, e) => One(RowValues(r), r, n, e)
         case AtEnd(r, _, e) => if Errno(e) != 0 then Raised(Errno(e), r) else Nothing(r)
         case LoadFailed(r, e) => if Errno(e) != 0 then Raised(Errno(e), r) else Nothing(r)
  }

  /** Rows not yet passed. */
  function Left(res: Res): nat {
    if U32(res.numRow + 1) < res.info.rowCount then res.info.rowCount - U32(res.numRow + 1) else 0
  }

  lemma RowsRunOut(res: Res, net: Net, error: int)
    requires res.info.rowCount < TWO_32
    ensures FetchOne(res, net, error).One? ==>
              && FetchOne(res, net, error).res.info.rowCount == res.info.rowCount
              && Left(FetchOne(res, net, error).res) == Left(res) - 1
  {
    hide Range, FetchInfo, SharedColumns, CheckReply, Body, FetchRequest, RowValues;
  }

  datatype Fetches = Returned(rows: seq<seq<Value>>, res: Res) | Raises(code: int)

  function Prefixed(rows: seq<seq<Value>>, f: Fetches): Fetches {
    match f
    case Returned(more, r) => Returned(rows + more, r)
    case Raises(code) => f
  }

  function FetchAll(res: Res, net: Net, error: int): Fetches
    requires res.info.rowCount < TWO_32
    decreases Left(res)
  {
    RowsRunOut(res, net, error);
    match FetchOne(res, net, error)
    case Nothing(r) => Returned([], r)
    case Raised(code, _) => Raises(code)
    case One(v, r, n, e) => Prefixed([v], FetchAll(r, n, e))
  }

  /** fetchmany(size): like fetchall, but stopping after `size` rows; what it leaves behind
      is where the next call starts. */
  datatype Batch = Batch(rows: seq<seq<Value>>, res: Res, net: Net, error: int)  // size rows were there
                 | Short(rows: seq<seq<Value>>, res: Res)                        // ended before
                 | BatchRaises(code: int)

  function FetchMany(size: nat, res: Res, net: Net, error: int): Batch {
    if size == 0 then Batch([], res, net, error) else
      match FetchOne(res, net, error)
      case Nothing(r) => Short([], r)
      case Raised(code, _) => BatchRaises(code)
      case One(v, r, n, e) =>
        match FetchMany(size - 1, r, n, e)
        case Batch(vs, r', n', e') => Batch([v] + vs, r', n', e')
        case Short(vs, r') => Short([v] + vs, r')
        case BatchRaises(code) => BatchRaises(code)
  }

  /** Batches of any size concatenate to what fetchall returns. */
  lemma {:induction false} BatchThenRest(size: nat, res: Res, net: Net, error: int)
    requires res.info.rowCount < TWO_32
    ensures match FetchMany(size, res, net, error)
            case Batch(vs, r, n, e) =>
              && r.info.rowCount == res.info.rowCount
              && FetchAll(res, net, error) == Prefixed(vs, FetchAll(r, n, e))
            case Short(vs, r) => FetchAll(res, net, error) == Returned(vs, r)
            case BatchRaises(code) => FetchAll(res, net, error) == Raises(code)
  {
    hide FetchOne;
    RowsRunOut(res, net, error);
    if size == 0 {
      PrefixedTwice([], [], FetchAll(res, net, error));
    } else {
      match FetchOne(res, net, error)
      case One(v, r, n, e) =>
        BatchThenRest(size - 1, r, n, e);
        var b := FetchMany(size - 1, r, n, e);
        if b.Batch? {
          PrefixedTwice([v], b.rows, FetchAll(b.res, b.net, b.error));
        }
      case _ =>
    }
  }

  lemma PrefixedTwice(a: seq<seq<Value>>, b: seq<seq<Value>>, f: Fetches)
    ensures Prefixed(a, Prefixed(b, f)) == Prefixed(a + b, f)
    ensures Prefixed([], f) == f
  {
    if f.Returned? {
      assert a + (b + f.rows) == a + b + f.rows;
      assert [] + f.rows == f.rows;
    }
  }

  // ---------- No silent truncation ----------

  /** The first page load of a scan that fails, by the code it leaves. */
  function FirstFailure(res: Res, net: Net, error: int): Option<int>
    requires res.info.rowCount < TWO_32
    decreases Left(res)
  {
    RowsRunOut(res, net, error);
    match NextRow(res, net, error)
    case GotRow(r, n, e) => if res.info.resultType == UPDATE_COUNT then None else FirstFailure(r, n, e)
    case AtEnd(_, _, _) => None
    case LoadFailed(_, e) => Some(e)
  }

  /** fetchall either returns all the rows left, or a page load failed; a failed load raises
      unless the low 32 bits of its code are zero, and then the rows so far are returned. */
  lemma {:induction false} NoSilentTruncation(res: Res, net: Net)
    requires res.info.rowCount < TWO_32 && res.info.resultType != UPDATE_COUNT
    ensures match FirstFailure(res, net, 0)
            case None => FetchAll(res, net, 0).Returned? && |FetchAll(res, net, 0).rows| == Left(res)
            case Some(e) =>
              if Errno(e) != 0 then FetchAll(res, net, 0) == Raises(Errno(e))
              else FetchAll(res, net, 0).Returned? && |FetchAll(res, net, 0).rows| < Left(res)
    decreases Left(res)
  {
    RowsRunOut(res, net, 0);
    StepKeeps(res, net);
    hide NextRow, RowValues;
    match FetchOne(res, net, 0)
    case One(v, r, n, e) => NoSilentTruncation(r, n);
    case Nothing(_) =>
    case Raised(_, _) =>
  }

  lemma StepKeeps(res: Res, net: Net)
    requires res.info.rowCount < TWO_32
    ensures match NextRow(res, net, 0)
            case GotRow(r, _, e) => e == 0 && r.info.resultType == res.info.resultType
            case AtEnd(_, _, e) => e == 0 && Left(res) == 0
            case LoadFailed(_, _) => Left(res) > 0
  {
    hide Range, FetchInfo, SharedColumns, CheckReply, Body, FetchRequest;
  }

  /** At the end of the rows an error number still standing on the connection raises. */
  lemma StaleError(res: Res, net: Net, code: int)
    requires -0x8000_0000 <= code < 0x8000_0000 && Left(res) == 0
    requires res.info.rowCount != 0 && res.info.resultType != UPDATE_COUNT
    ensures var f := FetchOne(res, net, code); if code == 0 then f.Nothing? else f.Raised? && f.code == code
  {
    hide LoadPage, RowValues;
  }

  // ---------- Which failures are silent ----------

  /** A header the driver refuses without leaving an error code: its status line has no
      space, or it announces several result types. */
  ghost predicate QuietHeader(i: Info, s: seq<byte>) {
    && ReadHeader(s).Complete?
    && (HeaderBounded(s);
        var h := HeaderText(s[..ReadHeader(s).n]);
        || GetStatus(h).Unreadable?
        || (&& (GetStatus(h).Good? || GetStatus(h) == Bad(0)) && ReadColumnCount(i, h).Accepted?
            && Get(h, "Result-Type").Some? && Contains(StripEnd(Get(h, "Result-Type").value), " ")))
  }

  /** The server reports an error among the rows with a code that is a multiple of 2^32. */
  ghost predicate QuietRows(i: Info, s: seq<byte>) {
    && CheckReply(i, s).Checked?
    && var c := CheckReply(i, s);
       var b := Body(c.info, c.rest);
       && b.Fail? && b.error.Malformed? && b.error.what in {ServerRowError, ServerColumnError}
       && b.error.code % TWO_32 == 0
  }

  lemma RefusedCode(i: Info, s: seq<byte>)
    requires i.errorCode == 0
    ensures CheckReply(i, s).Refused? && Errno(CheckReply(i, s).error) == 0 <==> QuietHeader(i, s)
  {
    HeaderBounded(s);
    if ReadHeader(s).Complete? {
      hide ReadHeader;
      RejectedCode(i, HeaderText(s[..ReadHeader(s).n]));
    }
  }

  lemma RejectedCode(i: Info, h: string)
    requires i.errorCode == 0
    ensures ParseHeader(i, h).Rejected? && Errno(ParseHeader(i, h).info.errorCode) == 0 <==>
            (|| GetStatus(h).Unreadable?
             || (&& (GetStatus(h).Good? || GetStatus(h) == Bad(0)) && ReadColumnCount(i, h).Accepted?
                 && Get(h, "Result-Type").Some? && Contains(StripEnd(Get(h, "Result-Type").value), " ")))
  {
    StatusCode(h);
    hide Get, GetStatus, Contains, StripEnd, ReadTypes, ReadAliases, ReadCounts, ResultTypeFromString, Atoi;
  }

  lemma StatusCode(h: string)
    ensures GetStatus(h).Bad? ==> Int32(GetStatus(h).code) == GetStatus(h).code
  {
    hide Find, Get;
  }

  lemma BodyCode(i: Info, s: seq<byte>)
    requires Body(i, s).Fail?
    ensures Errno(FaultCode(Body(i, s).error)) == 0 <==>
            var e := Body(i, s).error;
            e.Malformed? && e.what in {ServerRowError, ServerColumnError} && e.code % TWO_32 == 0
  {
    DecodeBodySound(Types(i.columns), i.updateable, i.rowCountSent, s);
    hide DecodeBody, Types;
  }

  /** A page load fails with an error number of zero on exactly these replies. */
  lemma QuietIff(res: Res, net: Net)
    ensures LoadPage(res, net).Failed? && Errno(LoadPage(res, net).error) == 0
       <==> RequestSize(res) <= net.room
            && (QuietHeader(FetchInfo(res), net.incoming) || QuietRows(FetchInfo(res), net.incoming))
  {
    var i := FetchInfo(res);
    RefusedCode(i, net.incoming);
    var c := CheckReply(i, net.incoming);
    hide QuietHeader, CheckReply, Body, FetchRequest, Range, SharedColumns;
    if c.Checked? && Body(c.info, c.rest).Fail? {
      BodyCode(c.info, c.rest);
    }
  }

  /** A row of one cell with the server's error status and the code 2^32. */
  const QUIET_ROW: seq<byte> := [STATUS_ERROR, 0, 0, 0, 0, 1, 0, 0, 0]

  /** A concrete reply of that kind. */
  lemma SilentReply(res: Res, net: Net, header: seq<byte>, n: nat, types: seq<VkType>, more: seq<byte>)
    requires types != [] && n > 0 && Starts(FetchInfo(res), FetchInfo(res).rowCountSent, false, types)
    requires Announces(header, FetchInfo(res).rowCountSent, n, false, types)
    requires net.incoming == header + (QUIET_ROW + more)
    requires RequestSize(res) <= net.room
    ensures LoadPage(res, net).Failed? && LoadPage(res, net).error == TWO_32 && Errno(TWO_32) == 0
  {
    var i := FetchInfo(res);
    hide Announces, Starts, CheckReply, FetchRequest, Range, SharedColumns, FetchInfo, Types, Body, ParseHeader;
    HeaderTaken(i, header, i.rowCountSent, n, false, types, QUIET_ROW + more);
    BodySilent(CheckReply(i, net.incoming).info, n, types, more);
  }

  lemma BodySilent(i: Info, n: nat, types: seq<VkType>, more: seq<byte>)
    requires types != [] && n > 0 && Types(i.columns) == types && !i.updateable && i.rowCountSent == n
    ensures Body(i, QUIET_ROW + more)
         == Parsed.Fail(Malformed(ServerColumnError, 0, 0, TWO_32))
  {
    hide Types, ServerCode, DecodePayload;
    var s := QUIET_ROW + more;
    BigCode(more);
    assert s[0] == STATUS_ERROR && s[1..] == [0, 0, 0, 0, 1, 0, 0, 0] + more;
    assert DecodeCell(types[0], s, 0, 0) == Parsed.Fail(Malformed(ServerColumnError, 0, 0, TWO_32));
    hide DecodeCell;
    assert DecodeCells(types, 0, s, 0).Fail?;
  }

  lemma BigCode(more: seq<byte>)
    ensures ServerCode([0, 0, 0, 0, 1, 0, 0, 0] + more) == TWO_32
  {
    var b: seq<byte> := [0, 0, 0, 0, 1, 0, 0, 0];
    assert (b + more)[..8] + seq(0, i => 0) == b;
    assert b[1..] == [0, 0, 0, 1, 0, 0, 0] && b[1..][1..] == [0, 0, 1, 0, 0, 0];
    assert FromLe([1]) == 1 by { assert [1][1..] == []; }
    assert FromLe([1, 0, 0, 0]) == 1 by {
      FromLeZeroPadded([1], [0, 0, 0]);
      assert [1] + [0, 0, 0] == [1, 0, 0, 0];
    }
    assert FromLe([0, 0, 1, 0, 0, 0]) == 0x1_0000 by {
      assert [0, 0, 1, 0, 0, 0][1..] == [0, 1, 0, 0, 0];
      assert [0, 1, 0, 0, 0][1..] == [1, 0, 0, 0];
    }
    Pow256Values();
  }

  /** The cursor then reports the end of the rows although rows are left. */
  lemma SilentTruncation(res: Res, net: Net, header: seq<byte>, n: nat, types: seq<VkType>, more: seq<byte>)
    requires types != [] && n > 0 && Starts(FetchInfo(res), FetchInfo(res).rowCountSent, false, types)
    requires Announces(header, FetchInfo(res).rowCountSent, n, false, types)
    requires net.incoming == header + (QUIET_ROW + more)
    requires res.firstRow + res.info.rowCountSent == U32(res.numRow + 1) < res.info.rowCount < TWO_32
    requires res.info.resultType != UPDATE_COUNT && res.firstRow + res.info.rowCountSent > 0
    requires RequestSize(res) <= net.room
    ensures Left(res) > 0 && FetchOne(res, net, 0).Nothing?
  {
    var r := res.(numRow := U32(res.numRow + 1));
    hide LoadPage, Announces, RequestSize, RowValues, Starts, FetchInfo;
    RequestSame(res, r.numRow);
    SilentReply(r, net, header, n, types, more);
  }

  lemma RequestSame(res: Res, numRow: nat)
    ensures RequestSize(res.(numRow := numRow)) == RequestSize(res)
    ensures FetchInfo(res.(numRow := numRow)) == FetchInfo(res)
  {
    hide FetchRequest;
  }

  // ---------- The whole table ----------

  /** Rows k and on of the table, as Python receives them. */
  function Delivered(table: seq<Row>, k: nat): seq<seq<Value>>
    requires k <= |table|
    decreases |table| - k
  {
    if k == |table| then [] else [NormalCells(table[k].cells)] + Delivered(table, k + 1)
  }

  lemma RowIsRow(res: Res, net: Net, w: Window, n: nat, types: seq<VkType>, updateable: bool, tail: seq<byte>, k: nat)
    requires Shows(res, net, w, n, types, updateable, tail) && At(res, k + 1)
    ensures k < |Table(w)| && RowValues(res) == NormalCells(Table(w)[k].cells)
  {
    hide Table, Shows, At, ElementIndex;
    assert |res.info.columns| == |types| > 0 by { Wide(res, net, w, n, types, updateable, tail); }
    FieldIsCell(res, net, w, n, types, updateable, tail, k, 0);
    forall c | 0 <= c < |types|
      ensures CellAt(res, c) == Normal(Table(w)[k].cells[c])
    {
      FieldIsCell(res, net, w, n, types, updateable, tail, k, c);
    }
  }

  lemma Wide(res: Res, net: Net, w: Window, n: nat, types: seq<VkType>, updateable: bool, tail: seq<byte>)
    requires Shows(res, net, w, n, types, updateable, tail)
    ensures |res.info.columns| == |types| > 0 && |Table(w)| <= res.info.rowCount == n < TWO_32
  {
  }

  /** fetchall returns every row of the table once and in order, whatever page sizes the
      server chose. */
  lemma {:induction false} FetchAllTable(res: Res, net: Net, w: Window, types: seq<VkType>, updateable: bool,
                                         tail: seq<byte>, k: nat)
    requires Shows(res, net, w, |Table(w)|, types, updateable, tail) && At(res, k) && Roomy(res, net, w)
    requires k <= |Table(w)| && res.info.resultType != UPDATE_COUNT
    ensures res.info.rowCount < TWO_32
    ensures var f := FetchAll(res, net, 0); f.Returned? && f.rows == Delivered(Table(w), k)
    decreases |Table(w)| - k
  {
    hide Shows, NextRow, At, Table, Roomy, RowValues;
    var n := |Table(w)|;
    Wide(res, net, w, n, types, updateable, tail);
    RowsRunOut(res, net, 0);
    StepKeeps(res, net);
    if k == n {
      EndRefines(res, net, 0, w, n, types, updateable, tail);
    } else {
      var w' := StepRefines(res, net, 0, w, n, types, updateable, tail, k);
      var s := NextRow(res, net, 0);
      RowIsRow(s.res, s.net, w', n, types, updateable, tail, k);
      FetchAllTable(s.res, s.net, w', types, updateable, tail, k + 1);
    }
  }

  /** A batch holds as many rows as asked for, a short one fewer. */
  lemma {:induction false} BatchSize(size: nat, res: Res, net: Net, error: int)
    ensures match FetchMany(size, res, net, error)
            case Batch(rows, _, _, _) => |rows| == size
            case Short(rows, _) => |rows| < size
            case BatchRaises(_) => size > 0
  {
    hide FetchOne;
    if size > 0 {
      match FetchOne(res, net, error)
      case One(_, r, n, e) => BatchSize(size - 1, r, n, e);
      case _ =>
    }
  }

  /** fetchmany from row k on returns the next `size` rows of the table, or those there still
      are, and leaves the cursor behind them. */
  lemma {:induction false} BatchTable(size: nat, res: Res, net: Net, w: Window, types: seq<VkType>, updateable: bool,
                                      tail: seq<byte>, k: nat)
    returns (w': Window)
    requires Shows(res, net, w, |Table(w)|, types, updateable, tail) && At(res, k) && Roomy(res, net, w)
    requires k <= |Table(w)| && res.info.resultType != UPDATE_COUNT
    ensures Table(w') == Table(w)
    ensures var b := FetchMany(size, res, net, 0);
            && !b.BatchRaises? && (b.Batch? <==> k + size <= |Table(w)|)
            && |b.rows| == Bytes.Min(size, |Table(w)| - k)
            && (forall i :: 0 <= i < |b.rows| ==> b.rows[i] == NormalCells(Table(w)[k + i].cells))
            && (b.Batch? ==> b.error == 0 && Shows(b.res, b.net, w', |Table(w)|, types, updateable, tail)
                             && At(b.res, k + size) && Roomy(b.res, b.net, w')
                             && b.res.info.resultType != UPDATE_COUNT)
    decreases size
  {
    hide Shows, NextRow, At, Table, Roomy, RowValues, NormalCells;
    var n := |Table(w)|;
    w' := w;
    if size > 0 {
      Wide(res, net, w, n, types, updateable, tail);
      StepKeeps(res, net);
      if k == n {
        EndRefines(res, net, 0, w, n, types, updateable, tail);
      } else {
        w' := StepRefines(res, net, 0, w, n, types, updateable, tail, k);
        var s := NextRow(res, net, 0);
        RowIsRow(s.res, s.net, w', n, types, updateable, tail, k);
        w' := BatchTable(size - 1, s.res, s.net, w', types, updateable, tail, k + 1);
      }
    }
  }

  // ---------- A table that breaks off ----------

  /** The code a load that starts from i and reads s fails with, if it fails. */
  function BreakCode(i: Info, s: seq<byte>): Option<int> {
    match CheckReply(i, s)
    case Refused(_, _, error) => Some(error)
    case Checked(j, _, rest) => match Body(j, rest) case Ok(_, _) => None case Fail(e) => Some(FaultCode(e))
  }

  /** Reading s instead of a page fails with an error number that is not zero. */
  ghost predicate Breaks(s: seq<byte>, asked: nat, updateable: bool, types: seq<VkType>) {
    forall i: Info :: Starts(i, asked, updateable, types) ==>
                        BreakCode(i, s).Some? && Errno(BreakCode(i, s).value) != 0
  }

  /** A connection lost where a page should come is such a case. */
  lemma LostBreaks(asked: nat, updateable: bool, types: seq<VkType>)
    ensures Breaks([], asked, updateable, types)
  {
    HeaderBounded([]);
    assert ReadHeader([]) == Closed;
  }

  lemma BrokenLoad(res: Res, net: Net, asked: nat, updateable: bool, types: seq<VkType>)
    requires Starts(FetchInfo(res), asked, updateable, types) && Breaks(net.incoming, asked, updateable, types)
    ensures LoadPage(res, net).Failed? && Errno(LoadPage(res, net).error) != 0
  {
    hide CheckReply, Body, FetchRequest, FetchInfo, Range, SharedColumns, Starts;
    assert BreakCode(FetchInfo(res), net.incoming).Some?;
  }

  /** A scan over pages that are right up to one that breaks raises. */
  lemma {:induction false} BrokenScan(res: Res, net: Net, w: Window, n: nat, types: seq<VkType>, updateable: bool,
                                      tail: seq<byte>, k: nat)
    requires Shows(res, net, w, n, types, updateable, tail) && At(res, k) && Roomy(res, net, w)
    requires k <= |Table(w)| < n && res.info.resultType != UPDATE_COUNT
    requires Breaks(tail, Asked(|Table(w)|, n, PageLimit(res)), updateable, types)
    ensures res.info.rowCount < TWO_32 && FetchAll(res, net, 0).Raises? && FetchAll(res, net, 0).code != 0
    decreases |Table(w)| - k
  {
    hide Shows, At, Table, Roomy, RowValues, LoadPage, Breaks;
    Wide(res, net, w, n, types, updateable, tail);
    RowsRunOut(res, net, 0);
    StepKeeps(res, net);
    if k == |Table(w)| {
      MissingLoads(res, net, 0, w, n, types, updateable, tail);
      BrokenLoad(res.(numRow := U32(res.numRow + 1)), net, Asked(|Table(w)|, n, PageLimit(res)), updateable, types);
    } else {
      var w' := StepRefines(res, net, 0, w, n, types, updateable, tail, k);
      LimitKept(res, net);
      hide NextRow;
      var s := NextRow(res, net, 0);
      BrokenScan(s.res, s.net, w', n, types, updateable, tail, k + 1);
    }
  }

  lemma LimitKept(res: Res, net: Net)
    ensures PageLimit(NextRow(res, net, 0).res) == PageLimit(res)
  {
    hide PageReply, Range, SharedColumns;
  }
}
