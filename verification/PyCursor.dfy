/** The Python cursor's fetch methods, on top of the C result. */
module PyCursor {
  import opened Bytes
  import opened Text
  import opened Codec
  import opened Header
  import opened Stream
  import opened ResultArena
  import opened Protocol
  import opened Fetch
  import opened Driver
  import opened Pager

  datatype Exception = InterfaceError | InternalError | DataError | OperationalError(code: int)

  datatype Row = Row(values: seq<Value>) | NoRow | Raise(e: Exception)

  datatype Rows = Rows(rows: seq<seq<Value>>) | RaiseAll(e: Exception)

  /** The row the next fetch steps on lies in the page then held. */
  ghost predicate NextIndexable(res: Res, net: Net, error: int) {
    match Fetch.FetchOne(res, net, error)
    case One(_, r, _, _) => forall c :: 0 <= c < |r.info.columns| ==> ElementIndex(r, c) < |r.page|
    case _ => true
  }

  /** So does every row of the scan, as it is with a server that sends the rows it announces. */
  ghost predicate Indexable(res: Res, net: Net, error: int)
    requires res.info.rowCount < TWO_32
    decreases Left(res)
  {
    RowsRunOut(res, net, error);
    && NextIndexable(res, net, error)
    && match Fetch.FetchOne(res, net, error)
       case One(_, r, n, e) => Indexable(r, n, e)
       case _ => true
  }

  class Connection4D {
    var connected: bool
    constructor ()
      ensures connected
    {
      connected := true;
    }
  }

  /** A cursor that has executed a statement, or none yet. */
  class DbCursor {
    const connection: Connection4D
    var closed: bool
    var resultType: Option<ResultType>
    var rowCount: int
    var rowNumber: int
    var width: nat               // number of cached column types
    var result: Result

    /** What was cached when the statement was executed still agrees with the result. */
    ghost predicate Valid()
      reads this, result, result.cnx, result.arena, result.arena.Repr
    {
      && result.Valid() && this !in result.arena.Repr
      && (resultType.Some? ==>
            resultType.value == result.resultType && rowCount == result.rowCount < TWO_32 && width == |result.columns|)
    }

    constructor (connection: Connection4D, result: Result)
      requires result.Valid() && result.rowCount < TWO_32
      ensures Valid() && !closed && this.connection == connection && this.result == result && resultType.Some?
    {
      this.connection, this.result, closed := connection, result, false;
      resultType, rowCount, rowNumber, width := Some(result.resultType), result.rowCount, -1, |result.columns|;
    }

    /** The reason, if any, why nothing can be fetched. */
    function Refusal(): Option<Exception>
      reads this, connection
    {
      if closed then Some(InterfaceError)
      else if !connection.connected then Some(InternalError)
      else if resultType.None? then Some(DataError)
      else None
    }

    /** fetchmany and fetchall look at the connection first. */
    function ListRefusal(): Option<Exception>
      reads this, connection
    {
      if !connection.connected then Some(InternalError)
      else if closed then Some(InterfaceError)
      else if resultType.None? then Some(DataError)
      else None
    }

    /** The result's current row, cell by cell. */
    method CurrentRow(ghost res: Res) returns (values: seq<Value>)
      requires Valid() && Is(result, res) && width == |res.info.columns| && res.numRow < res.info.rowCount
      requires forall c :: 0 <= c < width ==> ElementIndex(res, c) < |res.page|
      modifies result.cnx`errorCode
      ensures result.Valid() && result.cnx.errorCode == old(result.cnx.errorCode)
      ensures values == RowValues(res)
    {
      hide Connection.Pending, Arena.Linked, Arena.Memory, Shape, Meaning, InMemory, Result.PageIs, ElementIndex,
        RowValues;
      values := [];
      for c := 0 to width
        invariant result.Valid() && result.cnx.errorCode == old(result.cnx.errorCode)
        invariant values == RowValues(res)[..c]
      {
        var e := Pager.Field(result, c, res);
        var v := ReadValue(result.arena, e.value);
        assert v == RowValues(res)[c];
        values := values + [v];
      }
    }

    /** What one fetch leaves behind. */
    ghost predicate Fetched(f: Fetch.Fetched, row: Row, res: Res)
      requires result.cnx.Valid()
      reads this, result, result.elmt, result.arena, result.arena.Repr, result.cnx, result.cnx.rbuf, result.cnx.socket
    {
      match f
      case One(values, r, net, error) =>
        && row == Row.Row(values) && r == res && NetOf(result.cnx) == net && result.cnx.errorCode == error
        && rowNumber == res.numRow
      case Nothing(r) => row == NoRow && r == res
      case Raised(code, r) => row == Raise(OperationalError(code)) && r == res
    }

    /** The next row; an ended scan and a failed page load are told apart by the
        connection's error number. */
    method FetchOne(ghost res: Res) returns (row: Row, ghost res': Res)
      requires Valid() && Is(result, res)
      requires Refusal().None? ==> NextIndexable(res, NetOf(result.cnx), result.cnx.errorCode)
      modifies `rowNumber, result, result.arena, result.cnx, result.cnx.rbuf, result.cnx.socket
      ensures Valid() && Is(result, res') && (result.arena == old(result.arena) || fresh(result.arena))
              && Refusal() == old(Refusal())
      ensures Refusal().Some? ==> row == Raise(Refusal().value) && res' == res && unchanged(result.cnx)
      ensures closed ==> row == Raise(InterfaceError)
      ensures !closed && !connection.connected ==> row == Raise(InternalError)
      ensures !closed && connection.connected && resultType.None? ==> row == Raise(DataError)
      ensures Refusal().None? && (rowCount == 0 || resultType == Some(UPDATE_COUNT)) ==>
                row == NoRow && unchanged(result.cnx)
      ensures Refusal().None? ==>
                Fetched(Fetch.FetchOne(res, old(NetOf(result.cnx)), old(result.cnx.errorCode)), row, res')
    {
      hide Connection.Pending, Arena.Linked, Arena.Memory, Shape, Result.PageIs, Protocol.NextRow, RowValues,
        ElementIndex;
      res' := res;
      if closed {
        return Raise(InterfaceError), res;
      }
      if !connection.connected {
        return Raise(InternalError), res;
      }
      if resultType.None? {
        return Raise(DataError), res;
      }
      if rowCount == 0 || resultType.value == UPDATE_COUNT {
        return NoRow, res;
      }
      ghost var s := Protocol.NextRow(res, NetOf(result.cnx), result.cnx.errorCode);
      Stepped(res, NetOf(result.cnx), result.cnx.errorCode);
      var good := Pager.NextRow(result, res);
      res' := s.res;
      if !good {
        var code := Errno(result.cnx.errorCode);
        return if code != 0 then Raise(OperationalError(code)) else NoRow, res';
      }
      rowNumber := result.numRow;
      var values := CurrentRow(res');
      row := Row.Row(values);
    }

    /** All rows left: fetchone until it returns none. */
    method FetchAll(ghost res: Res) returns (rows: Rows)
      requires Valid() && Is(result, res)
      requires Refusal().None? ==> Indexable(res, NetOf(result.cnx), result.cnx.errorCode)
      modifies `rowNumber, result, result.arena, result.cnx, result.cnx.rbuf, result.cnx.socket
      ensures Valid() && Refusal() == old(Refusal()) && ListRefusal() == old(ListRefusal())
      ensures ListRefusal().Some? ==> rows == RaiseAll(ListRefusal().value)
      ensures !connection.connected ==> rows == RaiseAll(InternalError)
      ensures connection.connected && closed ==> rows == RaiseAll(InterfaceError)
      ensures connection.connected && !closed && resultType.None? ==> rows == RaiseAll(DataError)
      ensures Refusal().None? ==>
                && res.info.rowCount < TWO_32
                && match Fetch.FetchAll(res, old(NetOf(result.cnx)), old(result.cnx.errorCode))
                   case Returned(all, r) => rows == Rows.Rows(all) && Is(result, r)
                   case Raises(code) => rows == RaiseAll(OperationalError(code))
    {
      hide Connection.Pending, Arena.Linked, Arena.Memory, Shape, Result.PageIs, Fetch.FetchOne;
      if !connection.connected {
        return RaiseAll(InternalError);
      }
      if closed {
        return RaiseAll(InterfaceError);
      }
      if resultType.None? {
        return RaiseAll(DataError);
      }
      ghost var all := Fetch.FetchAll(res, NetOf(result.cnx), result.cnx.errorCode);
      ghost var now := res;
      var got: seq<seq<Value>> := [];
      PrefixedTwice([], [], all);
      while true
        invariant Valid() && Is(result, now) && Refusal().None?
                  && (result.arena == old(result.arena) || fresh(result.arena))
        invariant Indexable(now, NetOf(result.cnx), result.cnx.errorCode)
        invariant all == Prefixed(got, Fetch.FetchAll(now, NetOf(result.cnx), result.cnx.errorCode))
        decreases Left(now)
      {
        ghost var rest := Fetch.FetchAll(now, NetOf(result.cnx), result.cnx.errorCode);
        ghost var f := Fetch.FetchOne(now, NetOf(result.cnx), result.cnx.errorCode);
        RowsRunOut(now, NetOf(result.cnx), result.cnx.errorCode);
        var row;
        row, now := FetchOne(now);
        match row
        case NoRow =>
          return Rows.Rows(got);
        case Raise(e) =>
          return RaiseAll(e);
        case Row(values) =>
          PrefixedTwice(got, [values], Fetch.FetchAll(now, NetOf(result.cnx), result.cnx.errorCode));
          got := got + [values];
      }
    }

    /** At most `size` rows, none for a negative size. */
    method FetchMany(size: int, ghost res: Res) returns (rows: Rows, ghost now: Res)
      requires Valid() && Is(result, res)
      requires Refusal().None? ==> Indexable(res, NetOf(result.cnx), result.cnx.errorCode)
      modifies `rowNumber, result, result.arena, result.cnx, result.cnx.rbuf, result.cnx.socket
      ensures Valid() && Refusal() == old(Refusal()) && ListRefusal() == old(ListRefusal())
      ensures ListRefusal().Some? ==> rows == RaiseAll(ListRefusal().value)
      ensures !connection.connected ==> rows == RaiseAll(InternalError)
      ensures connection.connected && closed ==> rows == RaiseAll(InterfaceError)
      ensures connection.connected && !closed && resultType.None? ==> rows == RaiseAll(DataError)
      ensures Refusal().None? ==>
                match Fetch.FetchMany(Rounds(size), res, old(NetOf(result.cnx)), old(result.cnx.errorCode))
                case Batch(vs, r, net, error) =>
                  && rows == Rows.Rows(vs) && r == now && Is(result, now)
                  && NetOf(result.cnx) == net && result.cnx.errorCode == error && Indexable(now, net, error)
                case Short(vs, r) => rows == Rows.Rows(vs) && r == now && Is(result, now)
                case BatchRaises(code) => rows == RaiseAll(OperationalError(code))
    {
      hide Connection.Pending, Arena.Linked, Arena.Memory, Shape, Result.PageIs, Fetch.FetchOne;
      now := res;
      if !connection.connected {
        return RaiseAll(InternalError), now;
      }
      if closed {
        return RaiseAll(InterfaceError), now;
      }
      if resultType.None? {
        return RaiseAll(DataError), now;
      }
      var count := Rounds(size);
      ghost var whole := Fetch.FetchMany(count, res, NetOf(result.cnx), result.cnx.errorCode);
      var got: seq<seq<Value>> := [];
      AfterTwice([], [], whole);
      for i := 0 to count
        invariant Valid() && Is(result, now) && Refusal().None?
                  && (result.arena == old(result.arena) || fresh(result.arena))
        invariant Indexable(now, NetOf(result.cnx), result.cnx.errorCode)
        invariant whole == After(got, Fetch.FetchMany(count - i, now, NetOf(result.cnx), result.cnx.errorCode))
      {
        var row;
        row, now := FetchOne(now);
        match row
        case NoRow =>
          assert got + [] == got;
          return Rows.Rows(got), now;
        case Raise(e) =>
          return RaiseAll(e), now;
        case Row(values) =>
          AfterTwice(got, [values], Fetch.FetchMany(count - i - 1, now, NetOf(result.cnx), result.cnx.errorCode));
          got := got + [values];
      }
      assert got + [] == got;
      rows := Rows.Rows(got);
    }
  }

  /** range(size) is empty for a negative size. */
  function Rounds(size: int): nat {
    if size < 0 then 0 else size
  }

  /** A batch with rows before it. */
  ghost function After(rows: seq<seq<Value>>, b: Batch): Batch {
    match b
    case Batch(vs, r, n, e) => Batch.Batch(rows + vs, r, n, e)
    case Short(vs, r) => Short(rows + vs, r)
    case BatchRaises(_) => b
  }

  lemma AfterTwice(a: seq<seq<Value>>, b: seq<seq<Value>>, c: Batch)
    ensures After(a, After(b, c)) == After(a + b, c)
    ensures After([], c) == c
  {
    if !c.BatchRaises? {
      assert a + (b + c.rows) == a + b + c.rows;
      assert [] + c.rows == c.rows;
    }
  }

  // ---------- What stays ----------

  /** The row count, result type and number of columns cached at the execute. */
  predicate Kept(a: Res, b: Res) {
    a.info.rowCount == b.info.rowCount && a.info.resultType == b.info.resultType && |a.info.columns| == |b.info.columns|
  }

  lemma Stepped(res: Res, net: Net, error: int)
    ensures match Protocol.NextRow(res, net, error)
            case GotRow(r, _, _) => Kept(res, r) && r.numRow < r.info.rowCount
            case AtEnd(r, _, _) => Kept(res, r)
            case LoadFailed(r, _) => Kept(res, r)
  {
    hide PageReply, Range, SharedColumns;
    var r := res.(numRow := U32(res.numRow + 1));
    match PageReply(r, net)
    case NoReply(j, h, _) => SharedWidth(r, net);
    case Reply(j, h, _, _) => SharedWidth(r, net);
  }

  lemma SharedWidth(res: Res, net: Net)
    ensures match PageReply(res, net)
            case NoReply(j, h, _) => |SharedColumns(res, j, h)| == |res.info.columns|
            case Reply(j, h, _, _) => |SharedColumns(res, j, h)| == |res.info.columns|
  {
    hide FetchRequest, Range, Protocol.Body, ParseHeader, ReadHeader, Get, HeaderText;
    HeaderBounded(net.incoming);
    if ReadHeader(net.incoming).Complete? {
      ParseWidth(FetchInfo(res), HeaderText(net.incoming[..ReadHeader(net.incoming).n]));
    }
  }

  /** Without a Column-Count line the number of columns stays. */
  lemma ParseWidth(i: Info, h: string)
    ensures Get(h, "Column-Count").None? ==> |ParseHeader(i, h).info.columns| == |i.columns|
  {
    hide Get, GetStatus, Tokens, AliasTokens, Contains, StripEnd, Atoi, ResultTypeFromString;
  }
}
