/** Who frees what: heap blocks of a result over any run of page loads and its release.
    Addresses are numbers, 0 is NULL; any allocation may fail. */
module Ownership {
  import opened Bytes
  import Protocol

  /** One block, or none for NULL. */
  function Block(p: nat): multiset<nat> {
    if p == 0 then multiset{} else multiset{p}
  }

  /** The number of elements in a table. */
  function Cells(nbColumn: nat, sent: nat): nat {
    nbColumn * sent
  }

  // ---------- What the server sends ----------

  /** A reply's header: lost on the way, refused, with a bad column count, or with lines that
      may announce a column count and the number of rows, and that may still be refused. */
  datatype Header = Lost | Refused | BadCount | Lines(count: Option<nat>, sent: Option<nat>, accepted: bool)

  /** Its rows, value by value: 0 for null, else the number of blocks the value takes. The
      body ends early when there are fewer values than cells. */
  datatype Reply = Reply(header: Header, values: seq<nat>)

  /** A request for that many rows, and the reply to it. */
  datatype Load = Load(asked: nat, reply: Reply)

  /** The column count a result has after the reply; it had nb before. */
  function CountOf(r: Reply, nb: nat): nat {
    if r.header.Lines? && r.header.count.Some? then r.header.count.value else nb
  }

  function SentOf(l: Load): nat {
    if l.reply.header.Lines? && l.reply.header.sent.Some? then l.reply.header.sent.value else l.asked
  }

  /** The reply arrives whole: nothing but a failed allocation can keep its page out. */
  predicate Whole(l: Load, nb: nat) {
    && l.reply.header.Lines? && l.reply.header.accepted
    && Cells(CountOf(l.reply, nb), SentOf(l)) <= |l.reply.values|
  }

  /** A page held: the width of its table, its rows, and whether the table stands alone,
      without an arena behind it. */
  datatype Shown = Shown(width: nat, sent: nat, bare: bool)

  /** The page a whole reply leaves: bare when all its values are null. */
  function PageOf(l: Load, nb: nat): Shown {
    var n := Cells(CountOf(l.reply, nb), SentOf(l));
    Shown(CountOf(l.reply, nb), SentOf(l), n > 0 && n <= |l.reply.values| && AllNull(l.reply.values[..n]))
  }

  predicate AllNull(values: seq<nat>) {
    forall k :: 0 <= k < |values| ==> values[k] == 0
  }

  /** Releasing the page with that column count stays inside its table: a bare table is
      walked, and the walk's length is counted in 32 bits. */
  predicate Stays(s: Shown, count: nat) {
    s.bare ==> Protocol.U32(Cells(count, s.sent)) <= Cells(s.width, s.sent)
  }

  /** A bare table is walked inside exactly when the count is no larger than its own width. */
  lemma StaysExactly(s: Shown, count: nat)
    requires Cells(s.width, s.sent) < Protocol.TWO_32 && Cells(count, s.sent) < Protocol.TWO_32 && s.sent > 0
    ensures Stays(s, count) <==> (s.bare ==> count <= s.width)
  {
    CellsOrder(count, s.width, s.sent);
    hide Cells;
  }

  lemma CellsOrder(a: nat, b: nat, sent: nat)
    requires sent > 0
    ensures a <= b <==> Cells(a, sent) <= Cells(b, sent)
  {
    assert a <= b ==> a * sent <= b * sent;
    assert b < a ==> (b + 1) * sent <= a * sent;
  }

  lemma OwnCount(s: Shown)
    ensures Stays(s, s.width)
  {
  }

  class Heap {
    const plentiful: bool      // no allocation fails
    var next: nat
    var live: multiset<nat>
    var freed: seq<nat>        // in the order of the calls

    /** Every block handed out so far is live or was freed, exactly once. */
    ghost predicate Valid()
      reads this
    {
      && next > 0
      && forall p {:trigger live[p]} :: live[p] + multiset(freed)[p] == if 0 < p < next then 1 else 0
    }

    constructor (plentiful: bool)
      ensures Valid() && live == multiset{} && freed == [] && this.plentiful == plentiful
    {
      next, live, freed, this.plentiful := 1, multiset{}, [], plentiful;
    }

    method Malloc() returns (p: nat)
      requires Valid()
      modifies this
      ensures Valid() && freed == old(freed) && live == old(live) + Block(p)
      ensures p != 0 ==> p !in old(live)
      ensures plentiful ==> p != 0
    {
      p := 0;
      var outOfMemory: bool := *;
      if plentiful || !outOfMemory {
        p, next, live := next, next + 1, live + multiset{next};
      }
    }

    /** A block is freed only while it is live, next to the others, `rest`. */
    method Free(p: nat, ghost rest: multiset<nat>)
      requires Valid() && live == rest + Block(p)
      modifies this
      ensures Valid() && live == rest && freed == old(freed) + if p == 0 then [] else [p]
    {
      if p != 0 {
        assert p in live;
        live, freed := live - multiset{p}, freed + [p];
      }
    }
  }

  /** What an element points at: nothing, or a place inside a chunk of the arena, which is
      no block of its own and must never be freed. */
  datatype Value = Null | Inside(chunk: nat)

  /** The result structure's own pointers. */
  class Result {
    var self: nat
    var header: nat
    var column: nat
    var nbColumn: nat
    var sent: nat
    var elmt: nat
    var elements: seq<Value>   // the table at elmt
    var width: nat             // the column count the table was made for
    var arena: seq<nat>        // newest chunk first

    constructor (self: nat)
      ensures this.self == self && header == column == elmt == 0 && nbColumn == sent == width == 0
      ensures elements == [] && arena == []
    {
      this.self, header, column, elmt := self, 0, 0, 0;
      nbColumn, sent, width, elements, arena := 0, 0, 0, [], [];
    }

    /** The blocks of the page: table and arena. */
    function Page(): multiset<nat>
      reads this
    {
      Block(elmt) + multiset(arena)
    }

    function Owned(): multiset<nat>
      reads this
    {
      Block(self) + Block(header) + Block(column) + Page()
    }

    /** The table has the width it was made with, and without an arena it holds no pointer. */
    predicate Sound()
      reads this
    {
      && 0 !in arena
      && (elmt == 0 ==> elements == [])
      && (elmt != 0 ==> |elements| == Cells(width, sent))
      && (arena == [] ==> forall i :: 0 <= i < |elements| ==> elements[i] == Null)
    }

    function Held(): Shown
      reads this
    {
      Shown(width, sent, elmt != 0 && arena == [])
    }
  }

  /** Walks the chain and frees each chunk. */
  method ArenaFree(h: Heap, r: Result, ghost rest: multiset<nat>)
    requires h.Valid() && h.live == rest + multiset(r.arena) && 0 !in r.arena
    modifies h, r`arena
    ensures h.Valid() && r.arena == [] && h.live == rest
  {
    while r.arena != []
      invariant h.Valid() && h.live == rest + multiset(r.arena) && 0 !in r.arena
      decreases |r.arena|
    {
      FirstChunk(rest, r.arena);
      h.Free(r.arena[0], rest + multiset(r.arena[1..]));
      r.arena := r.arena[1..];
    }
  }

  lemma FirstChunk(rest: multiset<nat>, arena: seq<nat>)
    requires arena != [] && 0 !in arena
    ensures rest + multiset(arena) == rest + multiset(arena[1..]) + Block(arena[0])
  {
    assert arena == [arena[0]] + arena[1..];
  }

  /** Without an arena every value is freed on its own; none of them points anywhere. The
      walk ends where it would leave the table: what C does from there on is not defined. */
  method FreeValues(h: Heap, r: Result) returns (inside: bool)
    requires h.Valid() && forall i :: 0 <= i < |r.elements| ==> r.elements[i] == Null
    modifies h
    ensures h.Valid() && h.live == old(h.live)
    ensures inside <==> Protocol.U32(Cells(r.nbColumn, r.sent)) <= |r.elements|
  {
    for i := 0 to Protocol.U32(Cells(r.nbColumn, r.sent))
      invariant h.Valid() && h.live == old(h.live) && i <= |r.elements|
    {
      if i == |r.elements| {
        return false;
      }
      h.Free(match r.elements[i] case Null => 0 case Inside(chunk) => chunk, h.live);
    }
    inside := true;
  }

  /** Releases the page: in one pass when there is an arena, value by value otherwise. */
  method FreeData(h: Heap, r: Result, ghost rest: multiset<nat>) returns (inside: bool)
    requires h.Valid() && h.live == rest + r.Page() && r.Sound()
    modifies h, r`arena, r`elmt, r`elements
    ensures inside <==> Stays(old(r.Held()), r.nbColumn)
    ensures inside ==> h.Valid() && h.live == rest && r.elmt == 0 && r.elements == [] && r.arena == []
  {
    hide Protocol.U32, Heap.Valid, Block, Cells;
    Regroup(rest, Block(r.elmt), multiset(r.arena));
    inside := true;
    if r.arena != [] {
      ArenaFree(h, r, rest + Block(r.elmt));
    } else if r.elmt == 0 {
      Nothing(rest);
      return;
    } else {
      inside := FreeValues(h, r);
      if !inside {
        return;
      }
      Nothing(rest + Block(r.elmt));
    }
    h.Free(r.elmt, rest);
    r.elmt, r.elements := 0, [];
  }

  lemma Nothing(live: multiset<nat>)
    ensures var none: seq<nat> := []; multiset(none) == multiset{}
    ensures live + multiset{} == live && Block(0) == multiset{}
  {
  }

  lemma Regroup(a: multiset<nat>, b: multiset<nat>, c: multiset<nat>)
    ensures a + b + c == a + (b + c)
  {
  }

  lemma Swapped(a: multiset<nat>, b: multiset<nat>, c: multiset<nat>)
    ensures a + b + c == a + c + b
  {
  }

  // ---------- Receiving a reply ----------

  /** A block in the newest chunk, or in a new one. */
  method ArenaAlloc(h: Heap, r: Result, ghost rest: multiset<nat>) returns (v: Value)
    requires h.Valid() && 0 !in r.arena && h.live == rest + multiset(r.arena)
    modifies h, r`arena
    ensures h.Valid() && 0 !in r.arena && h.live == rest + multiset(r.arena)
    ensures old(r.arena) != [] || v.Inside? ==> r.arena != []
    ensures h.plentiful ==> v.Inside?
  {
    var room: bool := *;
    if r.arena == [] || !room {
      var p := h.Malloc();
      if p == 0 {
        return Null;
      }
      r.arena := [p] + r.arena;
    }
    v := Inside(r.arena[0]);
  }

  /** One value of at least one block: its structure, and possibly more for its data. */
  method ReceiveValue(h: Heap, r: Result, k: nat, blocks: nat, ghost rest: multiset<nat>) returns (bad: bool)
    requires h.Valid() && 0 !in r.arena && h.live == rest + multiset(r.arena) && k < |r.elements| && blocks > 0
    modifies h, r`arena, r`elements
    ensures h.Valid() && 0 !in r.arena && h.live == rest + multiset(r.arena)
    ensures (old(r.arena) != [] || !bad ==> r.arena != []) && |r.elements| == |old(r.elements)|
    ensures forall i :: 0 <= i < |r.elements| && i != k ==> r.elements[i] == old(r.elements[i])
    ensures r.elements[k].Inside? ==> r.arena != []
    ensures h.plentiful ==> !bad
  {
    var v := ArenaAlloc(h, r, rest);
    r.elements := r.elements[k := v];
    if v.Null? {
      return true;
    }
    ghost var elements := r.elements;
    for i := 1 to blocks
      invariant r.elements == elements
      invariant h.Valid() && 0 !in r.arena && r.arena != [] && h.live == rest + multiset(r.arena)
    {
      var data := ArenaAlloc(h, r, rest);
      if data.Null? {
        return true;
      }
    }
    bad := false;
  }

  /** The rows: a table, then value after value until one fails. */
  method ReceiveData(h: Heap, r: Result, values: seq<nat>, ghost rest: multiset<nat>) returns (bad: bool)
    requires h.Valid() && h.live == rest && r.arena == [] && r.elmt == 0 && r.elements == []
    requires r.nbColumn > 0 ==> r.column != 0
    modifies h, r`elmt, r`elements, r`arena, r`width
    ensures h.Valid() && h.live == rest + r.Page() && r.Sound() && r.Held().width == r.nbColumn
    ensures !bad ==> Cells(r.nbColumn, r.sent) <= |values| && Shows(r, values)
    ensures h.plentiful && Cells(r.nbColumn, r.sent) <= |values| ==> !bad
  {
    hide Heap.Valid;
    Nothing(rest);
    r.width := r.nbColumn;
    if r.nbColumn == 0 || r.sent == 0 {
      return false;
    }
    assert Cells(r.nbColumn, r.sent) > 0;
    hide Cells;
    var colType := h.Malloc();
    if colType == 0 {
      return true;
    }
    bad := ReceiveTable(h, r, values, rest + Block(colType));
    Swapped(rest, Block(colType), r.Page());
    h.Free(colType, rest + r.Page());
  }

  /** The page in r is the one the values make. */
  ghost predicate Shows(r: Result, values: seq<nat>)
    reads r
  {
    var n := Cells(r.nbColumn, r.sent);
    r.Held() == Shown(r.nbColumn, r.sent, n > 0 && n <= |values| && AllNull(values[..n]))
  }

  method ReceiveTable(h: Heap, r: Result, values: seq<nat>, ghost rest: multiset<nat>) returns (bad: bool)
    requires h.Valid() && h.live == rest && r.arena == [] && r.elmt == 0 && r.elements == []
    requires r.width == r.nbColumn && Cells(r.nbColumn, r.sent) > 0
    modifies h, r`elmt, r`elements, r`arena
    ensures h.Valid() && h.live == rest + r.Page() && r.Sound()
    ensures !bad ==> Cells(r.nbColumn, r.sent) <= |values| && Shows(r, values)
    ensures h.plentiful && Cells(r.nbColumn, r.sent) <= |values| ==> !bad
  {
    hide Heap.Valid, Cells;
    r.elmt := h.Malloc();
    if r.elmt == 0 {
      Nothing(rest);
      return true;
    }
    r.elements := seq(Cells(r.nbColumn, r.sent), _ => Null);
    bad := ReceiveValues(h, r, values, rest + Block(r.elmt));
    Regroup(rest, Block(r.elmt), multiset(r.arena));
  }

  method ReceiveValues(h: Heap, r: Result, values: seq<nat>, ghost rest: multiset<nat>) returns (bad: bool)
    requires h.Valid() && h.live == rest && r.arena == []
    requires forall i :: 0 <= i < |r.elements| ==> r.elements[i] == Null
    modifies h, r`elements, r`arena
    ensures h.Valid() && 0 !in r.arena && h.live == rest + multiset(r.arena)
    ensures |r.elements| == |old(r.elements)|
    ensures r.arena == [] ==> forall i :: 0 <= i < |r.elements| ==> r.elements[i] == Null
    ensures !bad ==> |r.elements| <= |values| && (r.arena == [] <==> AllNull(values[..|r.elements|]))
    ensures h.plentiful && |r.elements| <= |values| ==> !bad
  {
    hide Heap.Valid;
    bad := false;
    for k := 0 to |r.elements|
      invariant h.Valid() && 0 !in r.arena && h.live == rest + multiset(r.arena) && k <= |values|
      invariant |r.elements| == |old(r.elements)|
      invariant r.arena == [] ==> forall i :: 0 <= i < |r.elements| ==> r.elements[i] == Null
      invariant r.arena == [] <==> AllNull(values[..k])
    {
      if k == |values| {
        return true;
      }
      assert values[..k + 1] == values[..k] + [values[k]];
      if values[k] > 0 {
        bad := ReceiveValue(h, r, k, values[k], rest);
        if bad {
          return;
        }
      }
    }
  }

  /** The column array r had stays where it was, or a new one is r's own. */
  ghost function NewColumn(r: Result, was: nat): multiset<nat>
    reads r`column
  {
    if r.column == was then multiset{} else Block(r.column)
  }

  /** A reply's header block, then its lines. */
  method ReceiveHeader(h: Heap, r: Result, header: Header, ghost rest: multiset<nat>) returns (bad: bool)
    requires h.Valid() && h.live == rest && r.header == 0 && (r.column == 0 || r.column in rest)
    modifies h, r`header, r`column, r`nbColumn, r`sent
    ensures h.Valid() && (r.column in {0, old(r.column)} || r.column !in rest)
    ensures h.live == rest + Block(r.header) + NewColumn(r, old(r.column))
    ensures !bad ==> LinesRead(r, header, old(r.nbColumn), old(r.sent))
    ensures !bad && (old(r.nbColumn) > 0 ==> old(r.column) != 0) ==> (r.nbColumn > 0 ==> r.column != 0)
    ensures h.plentiful && header.Lines? && header.accepted ==> !bad
  {
    hide Heap.Valid;
    Nothing(rest);
    if header.Lost? {
      var _ := Scratch(h);
      return true;
    }
    r.header := h.Malloc();
    if r.header == 0 {
      return true;
    }
    bad := ReadLines(h, r, header, rest + Block(r.header));
  }

  /** What accepted lines set. */
  ghost predicate LinesRead(r: Result, header: Header, nb: nat, sent: nat)
    reads r`nbColumn, r`sent
  {
    && header.Lines? && header.accepted
    && r.nbColumn == (if header.count.Some? then header.count.value else nb)
    && r.sent == (if header.sent.Some? then header.sent.value else sent)
  }

  /** When a column count is announced, a new column array takes the place of the shared one. */
  method ReadLines(h: Heap, r: Result, header: Header, ghost rest: multiset<nat>) returns (bad: bool)
    requires h.Valid() && h.live == rest && (r.column == 0 || r.column in rest)
    modifies h, r`column, r`nbColumn, r`sent
    ensures h.Valid() && (r.column in {0, old(r.column)} || r.column !in rest)
    ensures h.live == rest + NewColumn(r, old(r.column))
    ensures !bad ==> LinesRead(r, header, old(r.nbColumn), old(r.sent))
    ensures !bad && (old(r.nbColumn) > 0 ==> old(r.column) != 0) ==> (r.nbColumn > 0 ==> r.column != 0)
    ensures h.plentiful && header.Lines? && header.accepted ==> !bad
  {
    hide Heap.Valid;
    Nothing(rest);
    if !header.Lines? {
      return true;
    }
    if header.count.Some? {
      r.nbColumn := header.count.value;
      r.column := h.Malloc();
      if r.nbColumn > 0 && r.column == 0 {
        return true;
      }
    }
    bad := Scratch(h);
    if !bad {
      if header.sent.Some? {
        r.sent := header.sent.value;
      }
      bad := !header.accepted;
    }
  }

  /** A block used and freed on the spot. */
  method Scratch(h: Heap) returns (bad: bool)
    requires h.Valid()
    modifies h
    ensures h.Valid() && h.live == old(h.live) && (h.plentiful ==> !bad)
  {
    var p := h.Malloc();
    if p == 0 {
      return true;
    }
    h.Free(p, old(h.live));
    bad := false;
  }

  // ---------- Loading a page ----------

  /** The blocks of a second result: all it points at but the shared column array. */
  ghost function OwnedBeside(n: Result, shared: nat): multiset<nat>
    reads n
  {
    Block(n.self) + Block(n.header) + n.Page() + NewColumn(n, shared)
  }

  /** n is a fresh result for the load l, with the columns of a result of nb columns. */
  ghost predicate Ready(n: Result, l: Load, nb: nat)
    reads n
  {
    && n.header == 0 && n.arena == [] && n.elmt == 0 && n.elements == []
    && n.nbColumn == nb && n.sent == l.asked && (nb > 0 ==> n.column != 0)
  }

  /** The page of the load l is in n. */
  ghost predicate Received(n: Result, l: Load, nb: nat)
    reads n
  {
    Whole(l, nb) && n.nbColumn == CountOf(l.reply, nb) && n.Held() == PageOf(l, nb)
  }

  method FetchRange(h: Heap, n: Result, l: Load, ghost rest: multiset<nat>) returns (bad: bool)
    requires h.Valid() && h.live == rest + Block(n.self) && (n.column == 0 || n.column in rest)
    requires Ready(n, l, n.nbColumn)
    modifies h, n`header, n`column, n`nbColumn, n`sent, n`elmt, n`elements, n`arena, n`width
    ensures h.Valid() && h.live == rest + OwnedBeside(n, old(n.column)) && n.Sound() && Stays(n.Held(), n.nbColumn)
    ensures !bad ==> Received(n, l, old(n.nbColumn)) && (n.nbColumn > 0 ==> n.column != 0)
    ensures h.plentiful && Whole(l, old(n.nbColumn)) ==> !bad
  {
    hide Heap.Valid, Block, NewColumn, Result.Sound, Result.Page, Received, Whole, Stays;
    bad := ReceiveReply(h, n, l, h.live);
    Placed(rest, Block(n.self), Block(n.header), NewColumn(n, old(n.column)), n.Page());
  }

  /** Sends the request and receives header and rows. */
  method ReceiveReply(h: Heap, n: Result, l: Load, ghost rest: multiset<nat>) returns (bad: bool)
    requires h.Valid() && h.live == rest && (n.column == 0 || n.column in rest)
    requires Ready(n, l, n.nbColumn)
    modifies h, n`header, n`column, n`nbColumn, n`sent, n`elmt, n`elements, n`arena, n`width
    ensures h.Valid() && h.live == rest + Block(n.header) + NewColumn(n, old(n.column)) + n.Page() && n.Sound()
    ensures Stays(n.Held(), n.nbColumn)
    ensures !bad ==> Received(n, l, old(n.nbColumn)) && (n.nbColumn > 0 ==> n.column != 0)
    ensures h.plentiful && Whole(l, old(n.nbColumn)) ==> !bad
  {
    hide Heap.Valid, NewColumn, Block, Result.Page, Whole, Received, LinesRead, Shows, Stays, Result.Sound;
    ghost var nb := n.nbColumn;
    NoPage(n, rest);
    bad := ReceiveHeader(h, n, l.reply.header, rest);
    NoPage(n, h.live);
    WholeHeader(n, l, nb);
    if !bad {
      bad := ReceiveData(h, n, l.reply.values, h.live);
      WholePage(n, l, nb);
    }
    OwnCount(n.Held());
  }

  /** A whole reply's header is accepted. */
  lemma WholeHeader(n: Result, l: Load, nb: nat)
    ensures Whole(l, nb) ==> l.reply.header.Lines? && l.reply.header.accepted
    ensures n.elmt == 0 ==> n.elements == [] && n.arena == [] ==> n.Sound() && Stays(n.Held(), n.nbColumn)
    ensures LinesRead(n, l.reply.header, nb, l.asked) ==>
              n.nbColumn == CountOf(l.reply, nb) && n.sent == SentOf(l)
              && (Whole(l, nb) <==> Cells(n.nbColumn, n.sent) <= |l.reply.values|)
  {
    hide Cells;
  }

  lemma WholePage(n: Result, l: Load, nb: nat)
    requires n.nbColumn == CountOf(l.reply, nb) && n.sent == SentOf(l)
    ensures Whole(l, nb) && Shows(n, l.reply.values) ==> Received(n, l, nb)
  {
    hide Cells, AllNull, Whole;
  }

  lemma NoPage(n: Result, live: multiset<nat>)
    ensures n.elmt == 0 && n.arena == [] ==> live + n.Page() == live
  {
  }

  lemma Placed(rest: multiset<nat>, self: multiset<nat>, header: multiset<nat>, column: multiset<nat>,
               page: multiset<nat>)
    ensures rest + self + header + column + page == rest + (self + header + page + column)
  {
  }

  /** Releases a second result. */
  method Dispose(h: Heap, n: Result, shared: nat, ghost rest: multiset<nat>) returns (inside: bool)
    requires h.Valid() && h.live == rest + OwnedBeside(n, shared) && n.Sound()
    modifies h, n`arena, n`elmt, n`elements
    ensures inside <==> Stays(old(n.Held()), n.nbColumn)
    ensures inside ==> h.Valid() && h.live == rest
  {
    hide Heap.Valid, Protocol.U32, Result.Page, Result.Sound, Block, Stays;
    ghost var self, header, page := Block(n.self), Block(n.header), n.Page();
    Grouped(rest, self, header, page, NewColumn(n, shared));
    Nothing(rest + self + header + page);
    if n.column != shared {
      h.Free(n.column, rest + self + header + page);
    }
    inside := FreeData(h, n, rest + self + header);
    if inside {
      h.Free(n.header, rest + self);
      h.Free(n.self, rest);
    }
  }

  lemma Grouped(rest: multiset<nat>, a: multiset<nat>, b: multiset<nat>, c: multiset<nat>, d: multiset<nat>)
    ensures rest + (a + b + c + d) == rest + a + b + c + d
  {
  }

  /** Loads a page into a second result and swaps it in. On failure the page held stays. The
      page swapped out is released with the column count of the reply that replaces it. */
  method FetchResult(h: Heap, r: Result, l: Load, ghost rest: multiset<nat>) returns (bad: bool, inside: bool)
    requires h.Valid() && h.live == rest + r.Owned() && r.Sound() && (r.nbColumn > 0 ==> r.column != 0)
    modifies h, r`sent, r`elmt, r`elements, r`arena, r`width
    ensures inside ==> h.Valid() && h.live == rest + r.Owned() && r.Sound()
    ensures bad ==> inside && unchanged(r)
    ensures !bad ==> Whole(l, r.nbColumn) && r.Held() == PageOf(l, r.nbColumn)
    ensures !bad ==> (inside <==> Stays(old(r.Held()), CountOf(l.reply, r.nbColumn)))
    ensures h.plentiful && Whole(l, r.nbColumn) ==> !bad
  {
    hide Heap.Valid, Block, OwnedBeside, Result.Owned, Result.Sound, Stays, Whole, PageOf;
    var self := h.Malloc();
    if self == 0 {
      Nothing(h.live);
      return true, true;
    }
    var n := new Result(self);
    n.sent, n.column, n.nbColumn := l.asked, r.column, r.nbColumn;
    ColumnOwned(r, rest);
    bad := FetchRange(h, n, l, rest + r.Owned());
    if !bad {
      SwapPages(h, r, n, rest);
    }
    inside := Dispose(h, n, r.column, rest + r.Owned());
  }

  lemma ColumnOwned(r: Result, rest: multiset<nat>)
    ensures r.column == 0 || r.column in rest + r.Owned()
  {
  }

  /** The two own together what they owned before. */
  method SwapPages(h: Heap, r: Result, n: Result, ghost rest: multiset<nat>)
    requires r != n && h.live == rest + r.Owned() + OwnedBeside(n, r.column) && r.Sound() && n.Sound()
    modifies r`sent, r`elmt, r`elements, r`arena, r`width, n`sent, n`elmt, n`elements, n`arena, n`width
    ensures h.live == rest + r.Owned() + OwnedBeside(n, r.column) && r.Sound() && n.Sound()
    ensures r.Held() == old(n.Held()) && n.Held() == old(r.Held())
  {
    hide Heap.Valid, Block, NewColumn, Result.Sound, Result.Page, Result.Held;
    Exchanged(rest, Block(r.self) + Block(r.header) + Block(r.column), r.Page(),
              Block(n.self) + Block(n.header), n.Page(), NewColumn(n, r.column));
    Swap(r, n);
  }

  /** Tables, arenas and row counts change places; each table keeps its width. */
  method Swap(r: Result, n: Result)
    requires r != n && r.Sound() && n.Sound()
    modifies r`sent, r`elmt, r`elements, r`arena, r`width, n`sent, n`elmt, n`elements, n`arena, n`width
    ensures r.Sound() && n.Sound() && r.Page() == old(n.Page()) && n.Page() == old(r.Page())
    ensures r.Held() == old(n.Held()) && n.Held() == old(r.Held())
  {
    hide Block, Cells;
    r.elmt, n.elmt := n.elmt, r.elmt;
    r.elements, n.elements := n.elements, r.elements;
    r.width, n.width := n.width, r.width;
    r.arena, n.arena := n.arena, r.arena;
    r.sent, n.sent := n.sent, r.sent;
  }

  lemma Exchanged(rest: multiset<nat>, a: multiset<nat>, p: multiset<nat>, b: multiset<nat>, q: multiset<nat>,
                  c: multiset<nat>)
    ensures rest + (a + p) + (b + q + c) == rest + (a + q) + (b + p + c)
  {
  }

  method FreePage(h: Heap, r: Result, ghost rest: multiset<nat>) returns (inside: bool)
    requires h.Valid() && h.live == rest + r.Page() && r.Sound()
    modifies h, r`arena, r`elmt, r`elements
    ensures inside <==> Stays(old(r.Held()), r.nbColumn)
    ensures inside ==> h.Valid() && h.live == rest
  {
    hide Heap.Valid, Protocol.U32, Block, Cells;
    Nothing(rest);
    inside := true;
    if r.elmt != 0 {
      inside := FreeData(h, r, rest);
      if !inside {
        return;
      }
    }
    Nothing(h.live);
    ArenaFree(h, r, rest);
  }

  /** Releases the result, its page with the column count of the first reply. */
  method FreeResult(h: Heap, r: Result, ghost rest: multiset<nat>) returns (inside: bool)
    requires h.Valid() && h.live == rest + r.Owned() && r.Sound()
    modifies h, r`arena, r`elmt, r`elements
    ensures inside <==> Stays(old(r.Held()), r.nbColumn)
    ensures inside ==> h.Valid() && h.live == rest
  {
    hide Heap.Valid, Block, Stays, Result.Sound;
    ghost var self, header, column := Block(r.self), Block(r.header), Block(r.column);
    Grouped(rest, self, header, column, r.Page());
    inside := FreePage(h, r, rest + self + header + column);
    if inside {
      Swapped(rest + self, header, column);
      h.Free(r.header, rest + self + column);
      h.Free(r.column, rest + self);
      h.Free(r.self, rest);
    }
  }

  // ---------- A result's whole life ----------

  /** Each page is released with the count of the page that replaced it, the last one with
      the count of the first reply. */
  predicate Safe(count: nat, pages: seq<Shown>) {
    forall i :: 0 <= i < |pages| ==> Stays(pages[i], ReleasedWith(count, pages, i))
  }

  function ReleasedWith(count: nat, pages: seq<Shown>, i: nat): nat
    requires i < |pages|
  {
    if i + 1 < |pages| then pages[i + 1].width else count
  }

  /** The pages that came in, of the first reply and of the loads that succeeded. */
  function PagesHeld(first: Shown, happened: seq<Option<Shown>>): (pages: seq<Shown>)
    ensures |pages| > 0
  {
    if happened == [] then [first]
    else
      var n := |happened| - 1;
      PagesHeld(first, happened[..n]) + (match happened[n] case None => [] case Some(s) => [s])
  }

  /** What came of loading l. */
  predicate Outcome(o: Option<Shown>, l: Load, nb: nat, plentiful: bool) {
    && (o.Some? ==> Whole(l, nb) && o.value == PageOf(l, nb))
    && (plentiful && Whole(l, nb) ==> o.Some?)
  }

  predicate Outcomes(happened: seq<Option<Shown>>, loads: seq<Load>, nb: nat, plentiful: bool) {
    |happened| <= |loads| && forall i :: 0 <= i < |happened| ==> Outcome(happened[i], loads[i], nb, plentiful)
  }

  /** Every page but the last is replaced by one whose count suits its table. */
  predicate Replaced(pages: seq<Shown>) {
    forall i :: 0 <= i < |pages| - 1 ==> Stays(pages[i], pages[i + 1].width)
  }

  lemma SafeParts(count: nat, pages: seq<Shown>)
    requires pages != []
    ensures Safe(count, pages) <==> Replaced(pages) && Stays(pages[|pages| - 1], count)
  {
    hide Stays;
    if Safe(count, pages) {
      forall i | 0 <= i < |pages| - 1
        ensures Stays(pages[i], pages[i + 1].width)
      {
        assert ReleasedWith(count, pages, i) == pages[i + 1].width;
      }
      assert ReleasedWith(count, pages, |pages| - 1) == count;
    }
  }

  /** One more outcome: the page before it is replaced, or nothing changes. */
  lemma OneMore(first: Shown, happened: seq<Option<Shown>>, o: Option<Shown>)
    ensures var before, after := PagesHeld(first, happened), PagesHeld(first, happened + [o]);
            && (o.None? ==> after == before)
            && (o.Some? ==>
                  && after[|after| - 1] == o.value
                  && (Replaced(after) <==> Replaced(before) && Stays(before[|before| - 1], o.value.width)))
  {
    assert (happened + [o])[..|happened|] == happened;
    var before := PagesHeld(first, happened);
    if o.Some? {
      OnePage(before, o.value);
    } else {
      assert before + [] == before;
    }
  }

  lemma OnePage(pages: seq<Shown>, s: Shown)
    requires pages != []
    ensures Replaced(pages + [s]) <==> Replaced(pages) && Stays(pages[|pages| - 1], s.width)
  {
    hide Stays;
    var after, n := pages + [s], |pages|;
    assert after[n - 1] == pages[n - 1] && after[n] == s;
    if Replaced(after) {
      forall i | 0 <= i < n - 1
        ensures Stays(pages[i], pages[i + 1].width)
      {
        assert after[i] == pages[i] && after[i + 1] == pages[i + 1];
      }
    }
    if Replaced(pages) && Stays(pages[n - 1], s.width) {
      forall i | 0 <= i < n
        ensures Stays(after[i], after[i + 1].width)
      {
        assert i < n - 1 ==> Stays(pages[i], pages[i + 1].width);
      }
    }
  }

  /** Page loads one after the other, up to a release that leaves its table. */
  method LoadPages(h: Heap, r: Result, loads: seq<Load>, ghost rest: multiset<nat>)
    returns (inside: bool, ghost happened: seq<Option<Shown>>)
    requires h.Valid() && h.live == rest + r.Owned() && r.Sound() && (r.nbColumn > 0 ==> r.column != 0)
    modifies h, r`sent, r`elmt, r`elements, r`arena, r`width
    ensures Outcomes(happened, loads, r.nbColumn, h.plentiful)
    ensures inside <==> Replaced(PagesHeld(old(r.Held()), happened))
    ensures inside ==>
              var pages := PagesHeld(old(r.Held()), happened);
              && h.Valid() && h.live == rest + r.Owned() && r.Sound() && |happened| == |loads|
              && r.Held() == pages[|pages| - 1]
  {
    hide Heap.Valid, Stays, Whole, PageOf, Result.Sound, Result.Owned, Replaced;
    ghost var first := r.Held();
    inside, happened := true, [];
    assert PagesHeld(first, []) == [first];
    OnlyOne(first);
    for k := 0 to |loads|
      invariant h.Valid() && h.live == rest + r.Owned() && r.Sound() && k == |happened|
      invariant Outcomes(happened, loads, r.nbColumn, h.plentiful)
      invariant var pages := PagesHeld(first, happened); Replaced(pages) && r.Held() == pages[|pages| - 1]
    {
      var bad;
      bad, inside := FetchResult(h, r, loads[k], rest);
      ghost var o := if bad then None else Some(PageOf(loads[k], r.nbColumn));
      WidthOf(loads[k], r.nbColumn);
      OneMore(first, happened, o);
      happened := happened + [o];
      if !inside {
        return;
      }
    }
  }

  lemma OnlyOne(s: Shown)
    ensures Replaced([s])
  {
  }

  lemma WidthOf(l: Load, nb: nat)
    ensures PageOf(l, nb).width == CountOf(l.reply, nb)
  {
  }

  /** A result's whole life: executing, any page loads with whatever column counts, release.
      Any allocation may fail. Every release stays inside its table exactly when each bare
      table is released with a count no larger than its own width; then each block taken is
      freed exactly once and no other block is touched. */
  method Lifetime(h: Heap, first: Load, loads: seq<Load>)
    returns (inside: bool, ghost began: Option<Shown>, ghost happened: seq<Option<Shown>>)
    requires h.Valid()
    modifies h
    ensures Outcome(began, first, 0, h.plentiful) && (began.None? ==> inside)
    ensures Outcomes(happened, loads, CountOf(first.reply, 0), h.plentiful)
    ensures began.Some? ==> (inside <==> Safe(CountOf(first.reply, 0), PagesHeld(began.value, happened)))
    ensures inside ==> h.Valid() && h.live == old(h.live) && (began.Some? ==> |happened| == |loads|)
    ensures inside ==> forall p :: old(h.next) <= p < h.next ==> multiset(h.freed)[p] == 1
  {
    hide Block, Whole, PageOf, Safe, PagesHeld, Outcomes;
    ghost var rest, start := h.live, h.next;
    NoneYet(h);
    hide Heap.Valid;
    began, happened := None, [];
    NoOutcomes(loads, CountOf(first.reply, 0), h.plentiful);
    var self := h.Malloc();
    inside := true;
    if self == 0 {
      Nothing(rest);
    } else {
      inside, began, happened := Live(h, self, first, loads, rest);
    }
    if inside {
      Freed(h, rest, start);
    }
  }

  /** From the first request to the release. */
  method Live(h: Heap, self: nat, first: Load, loads: seq<Load>, ghost rest: multiset<nat>)
    returns (inside: bool, ghost began: Option<Shown>, ghost happened: seq<Option<Shown>>)
    requires h.Valid() && h.live == rest + Block(self)
    modifies h
    ensures Outcome(began, first, 0, h.plentiful) && (began.None? ==> inside)
    ensures Outcomes(happened, loads, CountOf(first.reply, 0), h.plentiful)
    ensures began.Some? ==> (inside <==> Safe(CountOf(first.reply, 0), PagesHeld(began.value, happened)))
    ensures inside ==> h.Valid() && h.live == rest && (began.Some? ==> |happened| == |loads|)
  {
    hide Heap.Valid, Block, Whole, PageOf, Stays, Safe, PagesHeld, Outcomes, Result.Sound, OwnedBeside;
    began, happened := None, [];
    NoOutcomes(loads, CountOf(first.reply, 0), h.plentiful);
    var r := new Result(self);
    r.sent := first.asked;
    var bad := FetchRange(h, r, first, rest);
    FirstOwned(r);
    hide Result.Owned;
    if bad {
      inside := FreeResult(h, r, rest);
    } else {
      began := Some(r.Held());
      inside, happened := LoadAndFree(h, r, loads, rest);
    }
  }

  method LoadAndFree(h: Heap, r: Result, loads: seq<Load>, ghost rest: multiset<nat>)
    returns (inside: bool, ghost happened: seq<Option<Shown>>)
    requires h.Valid() && h.live == rest + r.Owned() && r.Sound() && (r.nbColumn > 0 ==> r.column != 0)
    modifies h, r`sent, r`elmt, r`elements, r`arena, r`width
    ensures Outcomes(happened, loads, r.nbColumn, h.plentiful)
    ensures inside <==> Safe(r.nbColumn, PagesHeld(old(r.Held()), happened))
    ensures inside ==> h.Valid() && h.live == rest && |happened| == |loads|
  {
    hide Heap.Valid, Stays, Safe, Replaced, PagesHeld, Outcomes, Result.Sound, Result.Owned;
    ghost var first := r.Held();
    inside, happened := LoadPages(h, r, loads, rest);
    SafeParts(r.nbColumn, PagesHeld(first, happened));
    if inside {
      inside := FreeResult(h, r, rest);
    }
  }

  lemma NoOutcomes(loads: seq<Load>, nb: nat, plentiful: bool)
    ensures Outcomes([], loads, nb, plentiful)
  {
  }

  lemma NoneYet(h: Heap)
    requires h.Valid()
    ensures h.next > 0 && forall p :: h.next <= p ==> h.live[p] == 0
  {
  }

  /** Blocks handed out since then that are not live any more were freed once. */
  lemma Freed(h: Heap, rest: multiset<nat>, first: nat)
    requires h.Valid() && h.live == rest && first > 0
    requires forall p :: first <= p ==> rest[p] == 0
    ensures forall p :: first <= p < h.next ==> multiset(h.freed)[p] == 1
  {
    forall p | first <= p < h.next
      ensures multiset(h.freed)[p] == 1
    {
      assert h.live[p] == 0;
    }
  }

  /** With no column array before it, a result owns its own. */
  lemma FirstOwned(r: Result)
    ensures OwnedBeside(r, 0) == r.Owned()
  {
  }

  // ---------- When every release stays inside ----------

  /** Counts and row numbers within 32 bits: exactly when each bare table is released with a
      count no larger than its own width. */
  lemma SafeExactly(count: nat, pages: seq<Shown>)
    requires forall i :: 0 <= i < |pages| ==>
               && pages[i].sent > 0 && Cells(pages[i].width, pages[i].sent) < Protocol.TWO_32
               && Cells(ReleasedWith(count, pages, i), pages[i].sent) < Protocol.TWO_32
    ensures Safe(count, pages)
       <==> forall i :: 0 <= i < |pages| && pages[i].bare ==> ReleasedWith(count, pages, i) <= pages[i].width
  {
    hide Cells, ReleasedWith, Stays;
    forall i | 0 <= i < |pages|
      ensures Stays(pages[i], ReleasedWith(count, pages, i))
         <==> (pages[i].bare ==> ReleasedWith(count, pages, i) <= pages[i].width)
    {
      StaysExactly(pages[i], ReleasedWith(count, pages, i));
    }
  }

  /** A server that announces one column count throughout keeps every release inside. */
  lemma OneCount(count: nat, pages: seq<Shown>)
    requires forall i :: 0 <= i < |pages| ==> pages[i].width == count
    ensures Safe(count, pages)
  {
    hide Stays;
    forall i | 0 <= i < |pages|
      ensures Stays(pages[i], ReleasedWith(count, pages, i))
    {
      OwnCount(pages[i]);
    }
  }

  /** Two replies that arrive whole, and no failed allocation: both pages are held in turn. */
  lemma TwoPages(first: Load, second: Load, began: Option<Shown>, happened: seq<Option<Shown>>)
    requires Whole(first, 0) && Whole(second, CountOf(first.reply, 0))
    requires Outcome(began, first, 0, true) && Outcomes(happened, [second], CountOf(first.reply, 0), true)
    ensures began.Some?
    ensures |happened| == 1 ==>
              PagesHeld(began.value, happened) == [PageOf(first, 0), PageOf(second, CountOf(first.reply, 0))]
  {
    hide Whole, PageOf;
    if |happened| == 1 {
      assert Outcome(happened[0], second, CountOf(first.reply, 0), true) && happened[..0] == [];
    }
  }

  const ONE_NULL := Load(1, Reply(Lines(Some(1), Some(1), true), [0]))
  const TWO_NULLS := Load(1, Reply(Lines(Some(2), Some(1), true), [0, 0]))
  const TWO_VALUES := Load(1, Reply(Lines(Some(2), Some(1), true), [1, 1]))

  /** The first release of the one, the last release of the other walk two elements of one. */
  lemma Unsafe()
    ensures Whole(ONE_NULL, 0) && Whole(TWO_NULLS, 1) && Whole(TWO_VALUES, 0) && Whole(ONE_NULL, 2)
    ensures !Safe(1, [PageOf(ONE_NULL, 0), PageOf(TWO_NULLS, 1)])
    ensures !Safe(2, [PageOf(TWO_VALUES, 0), PageOf(ONE_NULL, 2)])
  {
    var more, fewer := [PageOf(ONE_NULL, 0), PageOf(TWO_NULLS, 1)], [PageOf(TWO_VALUES, 0), PageOf(ONE_NULL, 2)];
    assert !Stays(more[0], ReleasedWith(1, more, 0)) && !Stays(fewer[1], ReleasedWith(2, fewer, 1));
  }

  /** A one-column page of one null, replaced by a reply that announces two columns. */
  method MoreColumns(h: Heap) returns (inside: bool)
    requires h.Valid() && h.plentiful
    modifies h
    ensures !inside
  {
    hide Whole, PageOf, Safe;
    Unsafe();
    ghost var began, happened;
    inside, began, happened := Lifetime(h, ONE_NULL, [TWO_NULLS]);
    TwoPages(ONE_NULL, TWO_NULLS, began, happened);
  }

  /** A two-column page, then a reply that announces one column and one null. */
  method FewerColumns(h: Heap) returns (inside: bool)
    requires h.Valid() && h.plentiful
    modifies h
    ensures !inside
  {
    hide Whole, PageOf, Safe;
    Unsafe();
    ghost var began, happened;
    inside, began, happened := Lifetime(h, TWO_VALUES, [ONE_NULL]);
    TwoPages(TWO_VALUES, ONE_NULL, began, happened);
  }
}
