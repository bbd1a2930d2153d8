/** The per-result arena: values are bump-allocated from a list of chunks and released in
    one pass. A pure model carries the properties of whole runs; the linked list refines it. */
module ResultArena {
  import opened Bytes

  const CHUNK_SIZE := 256 * 1024
  const SIZE_MAX := 0xFFFF_FFFF_FFFF_FFFF

  /** A request rounded up to 8 bytes, in 64-bit arithmetic. */
  function Rounded(size: nat): nat {
    ((size + 7) % (SIZE_MAX + 1)) / 8 * 8
  }

  /** Rounding never wraps for the sizes the row decoder asks for. */
  lemma RoundedUp(size: nat)
    requires size <= SIZE_MAX - 7
    ensures size <= Rounded(size) < size + 8 && Rounded(size) % 8 == 0
  {
  }

  /** A chunk by its capacity and the bytes handed out. */
  datatype Fill = Fill(cap: nat, used: nat)

  /** A block: the chunk's number counted from the oldest, the offset, and the asked size. */
  datatype Slot = Slot(chunk: nat, off: nat, size: nat)

  function Capacity(fills: seq<Fill>): nat {
    if fills == [] then 0 else Capacity(fills[..|fills| - 1]) + fills[|fills| - 1].cap
  }

  function Used(fills: seq<Fill>): nat {
    if fills == [] then 0 else Used(fills[..|fills| - 1]) + fills[|fills| - 1].used
  }

  predicate HasRoom(fills: seq<Fill>, size: nat) {
    fills != [] && fills[|fills| - 1].cap >= fills[|fills| - 1].used + Rounded(size)
  }

  /** The chunks once the newest has room for the request. */
  function WithRoom(fills: seq<Fill>, size: nat): (w: seq<Fill>)
    ensures |w| > 0
  {
    if HasRoom(fills, size) then fills else fills + [Fill(Max(Rounded(size), CHUNK_SIZE), 0)]
  }

  function Bump(fills: seq<Fill>, size: nat): seq<Fill> {
    var w := WithRoom(fills, size);
    var n := |w| - 1;
    w[..n] + [Fill(w[n].cap, w[n].used + Rounded(size))]
  }

  function NewSlot(fills: seq<Fill>, size: nat): Slot {
    var w := WithRoom(fills, size);
    Slot(|w| - 1, w[|w| - 1].used, size)
  }

  /** The chunks after a run of allocations. */
  function Run(sizes: seq<nat>): seq<Fill> {
    if sizes == [] then [] else Bump(Run(sizes[..|sizes| - 1]), sizes[|sizes| - 1])
  }

  /** The block the i-th allocation of a run returned. */
  function SlotOf(sizes: seq<nat>, i: nat): Slot
    requires i < |sizes|
  {
    NewSlot(Run(sizes[..i]), sizes[i])
  }

  predicate Small(sizes: seq<nat>) {
    forall i :: 0 <= i < |sizes| ==> sizes[i] <= SIZE_MAX - 7
  }

  function TotalRounded(sizes: seq<nat>): nat {
    if sizes == [] then 0 else TotalRounded(sizes[..|sizes| - 1]) + Rounded(sizes[|sizes| - 1])
  }

  /** The chunks' shape: nothing beyond a capacity; a chunk that was left behind could not
      hold the first block of the next one; a chunk above standard size is full. */
  predicate Shape(fills: seq<Fill>) {
    && (forall i :: 0 <= i < |fills| ==> FillOk(fills[i]))
    && (forall i :: 0 <= i < |fills| - 1 ==> LeftBehind(fills[i], fills[i + 1]))
  }

  predicate FillOk(f: Fill) {
    f.used <= f.cap <= Max(CHUNK_SIZE, f.used) && f.used % 8 == 0
  }

  predicate LeftBehind(f: Fill, next: Fill) {
    f.cap < f.used + next.used
  }

  lemma BumpKeepsShape(fills: seq<Fill>, size: nat)
    requires Shape(fills) && size <= SIZE_MAX - 7
    ensures Shape(Bump(fills, size))
    ensures Used(Bump(fills, size)) == Used(fills) + Rounded(size)
  {
    RoundedUp(size);
    hide Rounded;
    var after := Bump(fills, size);
    var last := |after| - 1;
    assert after[..last] == fills[..last];
    assert FillOk(after[last]);
    if last > 0 {
      assert fills[..last][last - 1] == after[last - 1];
      assert LeftBehind(after[last - 1], after[last]);
    }
    hide FillOk, LeftBehind;
    assert Shape(after);
    if HasRoom(fills, size) {
    } else {
      assert fills[..last] == fills;
    }
  }

  lemma {:induction false} RunShape(sizes: seq<nat>)
    requires Small(sizes)
    ensures Shape(Run(sizes)) && Used(Run(sizes)) == TotalRounded(sizes)
  {
    hide Shape, Bump;
    if sizes == [] {
      assert Shape([]) by { NoChunks(); }
    } else {
      RunShape(sizes[..|sizes| - 1]);
      BumpKeepsShape(Run(sizes[..|sizes| - 1]), sizes[|sizes| - 1]);
    }
  }

  lemma NoChunks()
    ensures Shape([])
  {
  }

  /** The chunks left behind hold less than twice what they and the newest one handed out. */
  lemma {:induction false} ShapeBound(fills: seq<Fill>)
    requires Shape(fills) && fills != []
    ensures Capacity(fills[..|fills| - 1]) + fills[|fills| - 1].used <= 2 * Used(fills)
    decreases |fills|
  {
    var n := |fills| - 1;
    var older := fills[..n];
    if n > 0 {
      OlderShape(fills);
      ShapeBound(older);
      assert LeftBehind(fills[n - 1], fills[n]);
      assert Capacity(older) == Capacity(older[..n - 1]) + older[n - 1].cap;
    }
  }

  lemma OlderShape(fills: seq<Fill>)
    requires Shape(fills) && |fills| > 1
    ensures Shape(fills[..|fills| - 1])
  {
    hide FillOk, LeftBehind;
  }

  /** Memory held after any run: at most twice what was asked for, plus one chunk. */
  lemma MemoryBound(sizes: seq<nat>)
    requires Small(sizes)
    ensures Capacity(Run(sizes)) <= 2 * TotalRounded(sizes) + 0x4_0000
  {
    RunShape(sizes);
    var fills := Run(sizes);
    if fills != [] {
      assert FillOk(fills[|fills| - 1]);
      ShapeBound(fills);
    }
  }

  // ---------- Blocks over a whole run ----------

  /** The block lies inside its chunk, 8-byte aligned. */
  predicate Inside(s: Slot, fills: seq<Fill>) {
    s.chunk < |fills| && s.off % 8 == 0 && s.off + Rounded(s.size) <= fills[s.chunk].used
  }

  /** Later chunks lists extend earlier ones. */
  predicate Grown(older: seq<Fill>, newer: seq<Fill>) {
    && |older| <= |newer|
    && forall i :: 0 <= i < |older| ==> older[i].cap == newer[i].cap && older[i].used <= newer[i].used
  }

  lemma BumpGrows(fills: seq<Fill>, size: nat)
    requires Shape(fills) && size <= SIZE_MAX - 7
    ensures Grown(fills, Bump(fills, size))
    ensures Inside(NewSlot(fills, size), Bump(fills, size))
    ensures NewSlot(fills, size).chunk < |fills| ==>
              NewSlot(fills, size).off == fills[NewSlot(fills, size).chunk].used
  {
    RoundedUp(size);
    hide Rounded;
  }

  lemma GrownSelf(a: seq<Fill>)
    ensures Grown(a, a)
  {
  }

  lemma GrownTwice(a: seq<Fill>, b: seq<Fill>, c: seq<Fill>)
    requires Grown(a, b) && Grown(b, c)
    ensures Grown(a, c)
  {
  }

  lemma {:induction false} RunGrows(sizes: seq<nat>, i: nat)
    requires Small(sizes) && i <= |sizes|
    ensures Grown(Run(sizes[..i]), Run(sizes))
    decreases |sizes|
  {
    if i == |sizes| {
      assert sizes[..i] == sizes;
      GrownSelf(Run(sizes));
    } else {
      hide Bump, Shape, Grown;
      var init := sizes[..|sizes| - 1];
      assert init[..i] == sizes[..i];
      RunGrows(init, i);
      RunShape(init);
      BumpGrows(Run(init), sizes[|sizes| - 1]);
      GrownTwice(Run(sizes[..i]), Run(init), Run(sizes));
    }
  }

  /** Every block a run returns is aligned and inside a chunk that is still there, and
      stays so; blocks of different calls do not overlap. */
  lemma ArenaSafe(sizes: seq<nat>, i: nat, j: nat)
    requires Small(sizes) && i < j < |sizes|
    ensures Inside(SlotOf(sizes, i), Run(sizes)) && Inside(SlotOf(sizes, j), Run(sizes))
    ensures var a, b := SlotOf(sizes, i), SlotOf(sizes, j);
            a.chunk == b.chunk ==> a.off + Rounded(a.size) <= b.off
  {
    hide Bump, Shape, NewSlot, Rounded;
    SlotStays(sizes, i, j);
    SlotStays(sizes, i, |sizes|);
    SlotStays(sizes, j, |sizes|);
    assert sizes[..|sizes|] == sizes;
    RunShape(sizes[..j]);
    BumpGrows(Run(sizes[..j]), sizes[j]);
  }

  lemma SlotStays(sizes: seq<nat>, i: nat, n: nat)
    requires Small(sizes) && i < n <= |sizes|
    ensures Inside(SlotOf(sizes, i), Run(sizes[..n]))
  {
    hide Bump, Shape, NewSlot, Rounded;
    var upto := sizes[..i + 1];
    assert upto[..i] == sizes[..i];
    RunShape(sizes[..i]);
    BumpGrows(Run(sizes[..i]), sizes[i]);
    assert sizes[..n][..i + 1] == upto;
    RunGrows(sizes[..n], i + 1);
  }

  // ---------- The linked list of chunks ----------

  class Chunk {
    const next: Chunk?
    const data: array<byte>
    var used: nat
    ghost const index: nat    // its number, counted from the oldest

    constructor (next: Chunk?, cap: nat, ghost index: nat)
      ensures this.next == next && data.Length == cap && used == 0 && fresh(data) && this.index == index
    {
      this.next, this.index := next, index;
      data := new byte[cap];
      used := 0;
    }

    ghost function Bytes(): seq<byte>
      reads this, data
    {
      if used <= data.Length then data[..used] else []
    }
  }

  /** A pointer handed out by the arena. */
  datatype Ptr = NullPtr | Block(chunk: Chunk, off: nat, len: nat)

  /** A chunk and the bytes of it handed out. */
  datatype Held = Held(chunk: Chunk, bytes: seq<byte>)

  /** Nothing handed out before has changed or moved. */
  ghost predicate Precedes(m: seq<Held>, m': seq<Held>) {
    |m| <= |m'| && forall i :: 0 <= i < |m| ==> m[i].chunk == m'[i].chunk && m[i].bytes <= m'[i].bytes
  }

  class Arena {
    var head: Chunk?
    ghost var chunks: seq<Chunk>   // oldest first
    ghost var Repr: set<object>

    /** The list from the newest chunk down, each chunk knowing its number. */
    ghost predicate Linked()
      reads this
    {
      && head == Before(chunks, |chunks|)
      && (forall i {:trigger chunks[i].next} :: 0 <= i < |chunks| ==> chunks[i].next == Before(chunks, i))
      && (forall i {:trigger chunks[i].index} :: 0 <= i < |chunks| ==> chunks[i].index == i)
      && this in Repr
      && (forall i :: 0 <= i < |chunks| ==> chunks[i] in Repr && chunks[i].data in Repr)
      && DataDistinct(chunks)
    }

    static ghost predicate DataDistinct(cs: seq<Chunk>) {
      cs != [] ==>
        var n := |cs| - 1;
        DataDistinct(cs[..n]) && forall i :: 0 <= i < n ==> cs[i].data != cs[n].data
    }

    static ghost function Before(cs: seq<Chunk>, i: nat): Chunk?
      requires i <= |cs|
    {
      if i == 0 then null else cs[i - 1]
    }

    ghost predicate Valid()
      reads this, Repr
    {
      Linked() && Shape(Fills())
    }

    ghost function Fills(): (f: seq<Fill>)
      reads this, chunks
      ensures |f| == |chunks|
    {
      seq(|chunks|, i requires 0 <= i < |chunks| reads this, chunks => Fill(chunks[i].data.Length, chunks[i].used))
    }

    /** The bytes handed out, chunk by chunk. */
    ghost function Memory(): (m: seq<Held>)
      reads this, Repr
      requires Linked()
      ensures |m| == |chunks|
    {
      seq(|chunks|, i requires 0 <= i < |chunks| && Linked() reads this, Repr => Held(chunks[i], chunks[i].Bytes()))
    }

    constructor ()
      ensures Valid() && head == null && chunks == [] && Repr == {this}
    {
      head, chunks, Repr := null, [], {this};
      new;
      NoChunks();
    }

    method AddChunk(cap: nat)
      requires Linked()
      modifies `head, `chunks, `Repr
      ensures Linked() && head != null && fresh(head) && fresh(head.data)
      ensures head.data.Length == cap && head.used == 0
      ensures chunks == old(chunks) + [head] && Repr == old(Repr) + {head, head.data}
      ensures Fills() == old(Fills()) + [Fill(cap, 0)]
      ensures Memory() == old(Memory()) + [Held(head, [])]
    {
      hide DataDistinct;
      ghost var fills, m := Fills(), Memory();
      var n := new Chunk(head, cap, |chunks|);
      Appended(chunks, n);
      head, chunks, Repr := n, chunks + [n], Repr + {n, n.data};
      Lists(fills, m, n);
    }

    /** The lists of a chain with one more chunk. */
    lemma Lists(fills: seq<Fill>, m: seq<Held>, n: Chunk)
      requires Linked() && chunks != [] && n == chunks[|chunks| - 1] && n.used == 0
      requires |fills| == |chunks| - 1 == |m|
      requires forall i :: 0 <= i < |fills| ==> fills[i] == Fill(chunks[i].data.Length, chunks[i].used)
      requires forall i :: 0 <= i < |m| ==> m[i] == Held(chunks[i], chunks[i].Bytes())
      ensures Fills() == fills + [Fill(n.data.Length, 0)] && Memory() == m + [Held(n, [])]
    {
    }

    static lemma Appended(cs: seq<Chunk>, c: Chunk)
      requires DataDistinct(cs) && forall i :: 0 <= i < |cs| ==> cs[i].data != c.data
      ensures DataDistinct(cs + [c])
    {
      assert (cs + [c])[..|cs|] == cs;
    }

    lemma LastFill()
      requires Linked()
      ensures Fills() == [] <==> head == null
      ensures head != null ==>
                && chunks[|chunks| - 1] == head && Memory()[|chunks| - 1].chunk == head
                && Fills()[|chunks| - 1] == Fill(head.data.Length, head.used)
                && (head.used <= head.data.Length ==> |Memory()[|chunks| - 1].bytes| == head.used)
    {
    }

    /** A new chunk when the newest one has no room. */
    method EnsureRoom(size: nat)
      requires Linked()
      modifies `head, `chunks, `Repr
      ensures Linked() && Fills() == WithRoom(old(Fills()), size)
      ensures head != null && head.used + Rounded(size) <= head.data.Length
      ensures if HasRoom(old(Fills()), size) then head == old(head) && chunks == old(chunks) && Repr == old(Repr)
              else && fresh(head) && fresh(head.data) && head.used == 0
                   && chunks == old(chunks) + [head] && Repr == old(Repr) + {head, head.data}
      ensures Memory() == old(Memory()) + if HasRoom(old(Fills()), size) then [] else [Held(head, [])]
    {
      var r := Rounded(size);
      hide Rounded;
      LastFill();
      hide Linked;
      if head == null || head.data.Length - head.used < r {
        AddChunk(if r > CHUNK_SIZE then r else CHUNK_SIZE);
      }
    }

    /** Hands out the next bytes of the newest chunk. */
    method TakeBlock(size: nat) returns (p: Ptr)
      requires Linked() && head != null && head.used + Rounded(size) <= head.data.Length
      requires size <= SIZE_MAX - 7
      modifies head`used
      ensures p == Block(head, old(head.used), size) && Linked()
      ensures old(head.used) + size <= head.used == old(head.used) + Rounded(size) <= head.data.Length
      ensures Fills() == old(Fills())[..|chunks| - 1] + [Fill(head.data.Length, head.used)]
      ensures Precedes(old(Memory()), Memory())
    {
      RoundedUp(size);
      LastFill();
      OnlyLast();
      hide Rounded, Linked;
      p := Block(head, head.used, size);
      head.used := head.used + Rounded(size);
    }

    /** The newest chunk is not among the others. */
    lemma OnlyLast()
      requires Linked() && head != null
      ensures chunks[|chunks| - 1] == head && head.index == |chunks| - 1
      ensures forall i :: 0 <= i < |chunks| - 1 ==> chunks[i] != head && chunks[i].data != head.data
    {
    }

    /** Bump allocation: what was handed out before stays, and the new block lies past it. */
    method Alloc(size: nat) returns (p: Ptr)
      requires Valid() && size <= SIZE_MAX - 7
      modifies Repr
      ensures Valid() && fresh(Repr - old(Repr)) && old(Repr) <= Repr
      ensures Fills() == Bump(old(Fills()), size)
      ensures head != null && p == Block(head, NewSlot(old(Fills()), size).off, size)
      ensures head.index == NewSlot(old(Fills()), size).chunk
      ensures head.index < |Memory()| && Memory()[head.index].chunk == head && |Memory()[head.index].bytes| == head.used
      ensures p.off + size <= head.used <= head.data.Length
      ensures Precedes(old(Memory()), Memory())
      ensures head.index < |old(chunks)| ==> |old(Memory())[head.index].bytes| <= p.off
    {
      hide Shape, WithRoom, Rounded, HasRoom, Linked, Memory, Fills, Precedes, Bump, NewSlot;
      ghost var m, fills := Memory(), Fills();
      BumpKeepsShape(fills, size);
      Ready(size);
      BumpLast(fills, Fills(), size, Fill(head.data.Length, head.used));
      ghost var m1 := Memory();
      p := TakeBlock(size);
      PrecedesTwice(m, m1, Memory());
      LastFill();
      OnlyLast();
    }

    static lemma BumpLast(fills: seq<Fill>, w: seq<Fill>, size: nat, last: Fill)
      requires w == WithRoom(fills, size) && w[|w| - 1] == last
      ensures Bump(fills, size) == w[..|w| - 1] + [Fill(last.cap, last.used + Rounded(size))]
      ensures NewSlot(fills, size) == Slot(|w| - 1, last.used, size)
    {
    }

    /** EnsureRoom, with what follows for the newest chunk and the bytes handed out. */
    method Ready(size: nat)
      requires Linked()
      modifies Repr
      ensures Linked() && Fills() == WithRoom(old(Fills()), size)
      ensures fresh(Repr - old(Repr)) && old(Repr) <= Repr
      ensures head != null && head in Repr && head.used + Rounded(size) <= head.data.Length
      ensures head.index == |chunks| - 1 && Fills()[|chunks| - 1] == Fill(head.data.Length, head.used)
      ensures Precedes(old(Memory()), Memory())
      ensures head.index < |old(chunks)| ==> |old(Memory())[head.index].bytes| == head.used
    {
      hide WithRoom, Rounded, HasRoom, Linked, Memory, Fills, Precedes;
      Owned();
      LastFill();
      ghost var m := Memory();
      EnsureRoom(size);
      LastFill();
      OnlyLast();
      Owned();
      Appending(m, Memory());
    }

    lemma Owned()
      requires Linked()
      ensures this in Repr && (head != null ==> head in Repr && head.data in Repr)
    {
    }

    static lemma Appending(a: seq<Held>, b: seq<Held>)
      requires a <= b
      ensures Precedes(a, b)
    {
    }

    static lemma PrecedesTwice(a: seq<Held>, b: seq<Held>, c: seq<Held>)
      requires Precedes(a, b) && Precedes(b, c)
      ensures Precedes(a, c)
    {
    }

    /** Only the newest chunk's bytes from off on changed. */
    twostate predicate Wrote(off: nat)
      reads this, Repr, if head != null then {head as object, head.data} else {}
    {
      && head != null && off <= head.used <= head.data.Length
      && unchanged(this) && (forall o :: o in Repr && o != head.data ==> unchanged(o))
      && head.data[..off] == old(head.data[..off])
    }

    twostate lemma WroteShape(off: nat)
      requires old(Valid()) && Wrote(off)
      ensures Valid() && Fills() == old(Fills())
    {
      hide Shape;
      forall i | 0 <= i < |chunks|
        ensures chunks[i].used == old(chunks[i].used)
      {
        assert chunks[i] in Repr;
      }
      assert Fills() == old(Fills());
    }

    /** The other chunks and the bytes before the block stay. */
    twostate lemma WroteMemory(off: nat)
      requires old(Valid()) && Wrote(off)
      ensures Linked() && |Memory()| == |old(Memory())| && head.index == |Memory()| - 1
      ensures forall i :: 0 <= i < head.index ==> Memory()[i] == old(Memory())[i]
      ensures Memory()[head.index].chunk == head && old(Memory())[head.index].chunk == head
      ensures |Memory()[head.index].bytes| == head.used && |old(Memory())[head.index].bytes| == head.used
      ensures Memory()[head.index].bytes[..off] == old(Memory())[head.index].bytes[..off]
      ensures Memory()[head.index].bytes[off..] == head.data[off..head.used]
    {
      hide Shape;
      LastFill();
      OnlyLast();
      Pieces(old(head.data[..]), off, head.used);
      Pieces(head.data[..], off, head.used);
    }

    static lemma Pieces(d: seq<byte>, off: nat, used: nat)
      requires off <= used <= |d|
      ensures d[..used][..off] == d[..off] && d[..used][off..] == d[off..used]
    {
    }

    /** So writing into a block that lies past everything in m0 leaves m0 as it was. */
    static lemma WroteKeeps(m0: seq<Held>, m: seq<Held>, m': seq<Held>, n: nat, off: nat)
      requires Precedes(m0, m) && |m'| == |m| == n + 1 && (n < |m0| ==> |m0[n].bytes| <= off)
      requires forall i :: 0 <= i < n ==> m'[i] == m[i]
      requires m'[n].chunk == m[n].chunk
      requires off <= |m[n].bytes| && off <= |m'[n].bytes| && m'[n].bytes[..off] == m[n].bytes[..off]
      ensures Precedes(m0, m')
    {
      if n < |m0| {
        assert m0[n].bytes <= m[n].bytes[..off];
      }
    }

    /** Walks the list and releases each chunk, returning them in the order released. */
    method FreeAll() returns (ghost released: seq<Chunk>)
      requires Valid()
      modifies this
      ensures head == null && chunks == [] && Valid()
      ensures |released| == |old(chunks)|
      ensures forall i :: 0 <= i < |released| ==> released[i] == old(chunks)[|released| - 1 - i]
      ensures forall i, j :: 0 <= i < j < |released| ==> released[i] != released[j]
    {
      hide DataDistinct;
      var a := head;
      released := [];
      ghost var n := |chunks|;
      while a != null
        invariant 0 <= n <= |chunks| && |released| == |chunks| - n && Linked()
        invariant a == Before(chunks, n)
        invariant forall i :: 0 <= i < |released| ==> released[i] == chunks[|chunks| - 1 - i]
        decreases n
      {
        assert a == chunks[n - 1] && a.next == Before(chunks, n - 1);
        var next := a.next;
        released := released + [a];
        a, n := next, n - 1;
      }
      assert forall i :: 0 <= i < |released| ==> released[i].index == |released| - 1 - i;
      head, chunks, Repr := null, [], {this};
      NoChunks();
      Alone(chunks);
    }

    static lemma Alone(cs: seq<Chunk>)
      requires |cs| == 0
      ensures DataDistinct(cs)
    {
    }
  }
}
