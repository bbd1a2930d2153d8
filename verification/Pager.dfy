/** Loading pages into a result and stepping through it, on the objects themselves. */
module Pager {
  import opened Bytes
  import opened Codec
  import opened Stream
  import opened ResultArena
  import opened Header
  import opened Protocol
  import opened Driver

  /** The object r stands for the value res. */
  ghost predicate Is(r: Result, res: Res)
    reads r, r.elmt, r.arena, r.arena.Repr
  {
    && r.Fields() == res.info && r.firstRow == res.firstRow && r.numRow == res.numRow
    && r.pageSize == res.pageSize && r.PageIs(res.page)
  }

  /** The network as the connection sees it. */
  ghost function NetOf(cnx: Connection): Net
    requires cnx.Valid()
    reads cnx, cnx.rbuf, cnx.socket
  {
    Net(cnx.socket.room, cnx.Pending())
  }

  /** Low-level page request: send, read the header, receive the rows. */
  method FetchRange(n: Result, statementId: int, first: nat, last: nat) returns (bad: bool, header: string)
    requires n.Valid() && n.errorCode == 0 && n.arena.chunks == []
    modifies n, n.arena.Repr, n.cnx, n.cnx.rbuf, n.cnx.socket
    ensures n.Valid() && n.arena == old(n.arena) && n.firstRow == old(n.firstRow)
    ensures n.cnx.socket.outgoing
         == old(n.cnx.socket.outgoing) + Cut(FetchRequest(statementId, first, last), old(n.cnx.socket.room))
    ensures fresh(n.arena.Repr - old(n.arena.Repr)) && (n.elmt == null || fresh(n.elmt) || n.elmt == old(n.elmt))
    ensures Holding(n, bad, header,
                    Exchange(old(n.Fields()), FetchRequest(statementId, first, last), old(NetOf(n.cnx))))
  {
    hide Connection.Pending, Precedes, Shape, Arena.Linked, Arena.Memory, CheckReply, Protocol.Body, FetchRequest;
    var cnx := n.cnx;
    ghost var s := cnx.Pending();
    cnx.errorCode, cnx.updatedRow := 0, 0;
    bad := cnx.SendAll(FetchRequest(statementId, first, last));
    assert cnx.Pending() == s;
    header := "";
    if bad {
      return;
    }
    CheckedClean(n.Fields(), s);
    bad, header := n.ReceivCheck();
    if bad {
      return;
    }
    bad := n.ReceiveData();
  }

  /** The second result holds the reply. */
  ghost predicate Holding(n: Result, bad: bool, header: string, reply: Reply)
    requires n.cnx.Valid()
    reads n, n.elmt, n.arena, n.arena.Repr, n.cnx, n.cnx.rbuf, n.cnx.socket
  {
    match reply
    case NoReply(j, h, error) => bad && n.Fields() == j && header == h && n.cnx.errorCode == error
    case Reply(j, h, cells, net) =>
      && !bad && n.Fields() == j && header == h && NetOf(n.cnx) == net && n.PageIs(cells)
      && n.cnx.errorCode == j.errorCode
  }

  /** The rows to ask for. */
  method NextRange(r: Result, ghost res: Res) returns (first: nat, last: nat)
    requires r.Fields() == res.info && r.firstRow == res.firstRow && r.pageSize == res.pageSize
    ensures (first, last) == Range(res)
  {
    var page := if r.pageSize > 0 then r.pageSize else DEFAULT_PAGE;
    first := U32(r.firstRow + r.rowCountSent);
    last := U32(first + page - 1);
    if last >= r.rowCount {
      last := U32(r.rowCount - 1);
    }
  }

  /** The second result: what it needs of the first, and the reply received into it. */
  method SecondResult(r: Result, ghost res: Res) returns (bad: bool, n: Result, header: string)
    requires r.Valid() && Is(r, res)
    modifies r.cnx, r.cnx.rbuf, r.cnx.socket
    ensures n.Valid() && fresh(n) && n.cnx == r.cnx && fresh(n.arena) && fresh(n.arena.Repr)
    ensures (n.elmt == null || fresh(n.elmt)) && n.firstRow == Range(res).0
    ensures Holding(n, bad, header, PageReply(res, old(NetOf(r.cnx))))
    ensures r.cnx.socket.outgoing == old(r.cnx.socket.outgoing) + Cut(PageRequest(res), old(r.cnx.socket.room))
  {
    hide Range, Connection.Pending, Precedes, Shape, Arena.Linked, Arena.Memory, Exchange, FetchRequest, Result.PageIs;
    var first: int, last: int := NextRange(r, res);
    n := new Result(r.cnx);
    n.firstRow, n.rowCountSent, n.columns := first, U32(last - first + 1), r.columns;
    n.updateable, n.pageSize := r.updateable, r.pageSize;
    assert n.Fields() == FetchInfo(res);
    bad, header := FetchRange(n, r.statementId, first, last);
  }

  /** Element table and arena change places; the page left over is released. */
  method SwapPages(r: Result, n: Result, ghost cells: seq<Value>)
    requires r != n && r.Valid() && n.Valid() && n.cnx == r.cnx && n.PageIs(cells) && Apart(r, n)
    modifies r`elmt, r`arena, r`firstRow, r`rowCountSent, r`errorCode, r`ok, n`elmt, n`arena, n`rowCountSent, r.arena
    ensures r.Valid() && r.arena == old(n.arena) && r.PageIs(cells) && r.elmt == old(n.elmt)
    ensures r.firstRow == n.firstRow && r.rowCountSent == old(n.rowCountSent) && r.errorCode == n.errorCode
            && r.ok == n.ok
  {
    hide Connection.Pending, Precedes, Shape, Arena.Linked, Arena.Memory, Result.PageIs;
    r.arena.Owned();
    TradePages(r, n, cells);
    hide Result.Valid;
    ghost var freed := n.arena.FreeAll();
  }

  /** Neither result holds anything of the other. */
  ghost predicate Apart(r: Result, n: Result)
    reads r, n, r.arena, n.arena
  {
    && r.arena.Repr !! n.arena.Repr && n !in r.arena.Repr && r !in n.arena.Repr
    && (r.elmt == null || r.elmt !in n.arena.Repr)
    && (n.elmt == null || n.elmt !in r.arena.Repr)
  }

  method TradePages(r: Result, n: Result, ghost cells: seq<Value>)
    requires r != n && r.Valid() && n.Valid() && n.cnx == r.cnx && n.PageIs(cells) && Apart(r, n)
    modifies r`elmt, r`arena, r`firstRow, r`rowCountSent, r`errorCode, r`ok, n`elmt, n`arena, n`rowCountSent
    ensures r.Valid() && r.PageIs(cells) && n.arena.Valid() && Apart(r, n)
    ensures r.arena == old(n.arena) && n.arena == old(r.arena) && r.elmt == old(n.elmt)
    ensures r.firstRow == n.firstRow && r.rowCountSent == old(n.rowCountSent) && r.errorCode == n.errorCode
            && r.ok == n.ok
  {
    hide Connection.Pending, Precedes, Shape, Arena.Linked, Arena.Memory, Result.PageAt;
    r.elmt, n.elmt := n.elmt, r.elmt;
    r.arena, n.arena := n.arena, r.arena;
    r.firstRow := n.firstRow;
    r.rowCountSent, n.rowCountSent := n.rowCountSent, r.rowCountSent;
    r.errorCode, r.ok := n.errorCode, n.ok;
  }

  /** The failed request's error into r, which keeps its page. */
  method KeepPage(r: Result, n: Result)
    requires r != n && n.Valid() && n.cnx == r.cnx
    modifies r`ok, r`errorCode, n.arena
    ensures r.ok == n.ok && r.errorCode == if n.errorCode != 0 then n.errorCode else r.cnx.errorCode
  {
    hide Arena.Linked, Shape;
    r.ok, r.errorCode := n.ok, if n.errorCode != 0 then n.errorCode else r.cnx.errorCode;
    ghost var freed := n.arena.FreeAll();
  }

  /** What a load leaves behind. */
  ghost predicate LoadDone(l: Load, bad: bool, r: Result)
    requires r.cnx.Valid()
    reads r, r.elmt, r.arena, r.arena.Repr, r.cnx, r.cnx.rbuf, r.cnx.socket
  {
    match l
    case Loaded(res', net) => !bad && Is(r, res') && NetOf(r.cnx) == net && r.cnx.errorCode == res'.info.errorCode
    case Failed(res', error) => bad && Is(r, res') && r.cnx.errorCode == error
  }

  /** The column array is the shared one unless a Column-Count line made a new one. */
  method ShareColumns(r: Result, n: Result, header: string)
    modifies r`columns
    ensures r.columns == if Get(header, "Column-Count").Some? then old(r.columns) else n.columns
  {
    if Get(header, "Column-Count").None? {
      r.columns := n.columns;
    }
  }

  /** Moves what the second result holds into the first. */
  method Settle(r: Result, n: Result, bad: bool, header: string, ghost res: Res, ghost reply: Reply)
    requires r != n && r.Valid() && n.Valid() && n.cnx == r.cnx && Is(r, res)
    requires Apart(r, n)
    requires Holding(n, bad, header, reply) && n.firstRow == Range(res).0
    modifies r, n`elmt, n`arena, n`rowCountSent, r.arena, n.arena
    ensures r.Valid() && (r.arena == old(r.arena) || r.arena == old(n.arena))
    ensures r.arena.Repr == if r.arena == old(n.arena) then old(n.arena.Repr) else old(r.arena.Repr)
    ensures r.elmt == old(r.elmt) || r.elmt == old(n.elmt)
    ensures LoadDone(Received(res, reply), bad, r)
  {
    hide Connection.Pending, Precedes, Shape, Arena.Linked, Arena.Memory, Range, Get, Result.PageIs;
    r.arena.Owned();
    n.arena.Owned();
    hide Arena.Valid;
    ShareColumns(r, n, header);
    if bad {
      KeepPage(r, n);
    } else {
      SwapPages(r, n, reply.cells);
    }
  }

  /** Fetches the next page into a second result and, when that succeeds, turns to it. */
  method FetchResult(r: Result, ghost res: Res) returns (bad: bool)
    requires r.Valid() && Is(r, res)
    modifies r, r.arena, r.cnx, r.cnx.rbuf, r.cnx.socket
    ensures r.Valid()
    ensures (r.arena == old(r.arena) && r.arena.Repr == old(r.arena.Repr)) || (fresh(r.arena) && fresh(r.arena.Repr))
    ensures r.elmt == old(r.elmt) || r.elmt == null || fresh(r.elmt)
    ensures LoadDone(LoadPage(res, old(NetOf(r.cnx))), bad, r)
    ensures r.cnx.socket.outgoing == old(r.cnx.socket.outgoing) + Cut(PageRequest(res), old(r.cnx.socket.room))
  {
    hide Connection.Pending, Precedes, Shape, Arena.Linked, Arena.Memory, PageReply, Received, Range, Holding,
      LoadDone, Result.PageIs;
    var n, header;
    bad, n, header := SecondResult(r, res);
    Settle(r, n, bad, header, res, PageReply(res, old(NetOf(r.cnx))));
  }

  /** What moving to the next row leaves behind. */
  ghost predicate StepDone(s: Step, good: bool, r: Result)
    requires r.cnx.Valid()
    reads r, r.elmt, r.arena, r.arena.Repr, r.cnx, r.cnx.rbuf, r.cnx.socket
  {
    match s
    case GotRow(res', net, error) => good && Is(r, res') && NetOf(r.cnx) == net && r.cnx.errorCode == error
    case AtEnd(res', net, error) => !good && Is(r, res') && NetOf(r.cnx) == net && r.cnx.errorCode == error
    case LoadFailed(res', error) => !good && Is(r, res') && r.cnx.errorCode == error
  }

  /** One row on; loads the next page when the row is past the window. */
  method NextRow(r: Result, ghost res: Res) returns (good: bool)
    requires r.Valid() && Is(r, res)
    modifies r, r.arena, r.cnx, r.cnx.rbuf, r.cnx.socket
    ensures r.Valid()
    ensures (r.arena == old(r.arena) && r.arena.Repr == old(r.arena.Repr)) || (fresh(r.arena) && fresh(r.arena.Repr))
    ensures r.elmt == old(r.elmt) || r.elmt == null || fresh(r.elmt)
    ensures StepDone(Protocol.NextRow(res, old(NetOf(r.cnx)), old(r.cnx.errorCode)), good, r)
    ensures r.cnx.socket.outgoing
         == old(r.cnx.socket.outgoing)
            + if Loads(res) then Cut(PageRequest(Advanced(res)), old(r.cnx.socket.room)) else []
  {
    hide Connection.Pending, Precedes, Shape, Arena.Linked, Arena.Memory, LoadPage, Result.PageIs;
    r.numRow := U32(r.numRow + 1);
    if r.numRow >= r.rowCount {
      return false;
    }
    ghost var res1 := res.(numRow := r.numRow);
    assert r.Valid() && Is(r, res1);
    if r.numRow > U32(r.firstRow + r.rowCountSent - 1) {
      LoadedClean(res1, NetOf(r.cnx));
      var bad := FetchResult(r, res1);
      return !bad;
    }
    good := true;
  }

  lemma LoadedClean(res: Res, net: Net)
    ensures LoadPage(res, net).Loaded? ==> LoadPage(res, net).res.info.errorCode == 0
  {
    hide CheckReply, Protocol.Body, FetchRequest, Range, SharedColumns, FetchInfo;
    CheckedClean(FetchInfo(res), net.incoming);
  }

  /** The element of column c of the current row; out of bounds there is none. */
  method Field(r: Result, c: nat, ghost res: Res) returns (e: Option<Element>)
    requires r.Valid() && Is(r, res)
    requires res.numRow < res.info.rowCount && c < |res.info.columns| ==> ElementIndex(res, c) < |res.page|
    modifies r.cnx`errorCode
    ensures match Protocol.Field(res, c)
            case None => e == None && r.cnx.errorCode == -1
            case Some(v) =>
              && e.Some? && InMemory(Target(e.value.body), r.arena.Memory())
              && Meaning(e.value, r.arena.Memory()) == v && r.cnx.errorCode == old(r.cnx.errorCode)
  {
    hide Precedes, Shape, Arena.Memory, Meaning, InMemory;
    if r.numRow >= r.rowCount || c >= |r.columns| {
      r.cnx.errorCode := -1;
      return None;
    }
    var i := U32(U32(r.numRow - r.firstRow) * |r.columns| + c);
    assert i == ElementIndex(res, c);
    r.PageElement(i, res.page);
    e := Some(r.elmt[i]);
  }

  /** The bytes behind a pointer. */
  method BytesAt(a: Arena, p: Ptr) returns (b: seq<byte>)
    requires a.Linked() && InMemory(p, a.Memory())
    ensures b == At(p, a.Memory())
  {
    match p
    case NullPtr => b := [];
    case Block(chunk, off, len) =>
      b := chunk.data[off..off + len];
      Slice(chunk.data[..], chunk.used, off, len);
      assert b == chunk.data[..][off..off + len];
  }

  lemma Slice(d: seq<byte>, used: nat, off: nat, len: nat)
    ensures off + len <= used <= |d| ==> d[..used][off..off + len] == d[off..off + len]
  {
  }

  /** A value read back through the element and its pointers. */
  method ReadValue(a: Arena, e: Element) returns (v: Value)
    requires a.Linked() && InMemory(Target(e.body), a.Memory())
    ensures v == Meaning(e, a.Memory())
  {
    hide Arena.Linked, Arena.Memory, InMemory, At;
    if e.isNull {
      return Null;
    }
    var b := BytesAt(a, Target(e.body));
    match e.body
    case NoBody => v := Null;
    case FixedBody(_) => v := Fixed(b);
    case StampBody(year, month, day, milli) => v := Stamp(year, month, day, milli);
    case FloatBody(exp, sign, _) => v := Float(exp, sign, b);
    case StrBody(length, _) => v := Str(b[..Bytes.Min(2 * length, |b|)]);
    case BlobBody(_) => v := Blob(b);
  }
}
