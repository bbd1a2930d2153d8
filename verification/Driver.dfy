/** The C driver's result object: element table, arena and header fields, filled in place
    from the connection. Its methods do what the pure protocol functions say. */
module Driver {
  import opened Bytes
  import opened Codec
  import opened Stream
  import opened ResultArena
  import opened Header
  import opened Protocol
  import opened HeaderReader
  import opened Text

  /** What an element's pValue points at. Fixed-size structures are held here as values;
      their variable parts are blocks in the arena. */
  datatype Body =
    | NoBody
    | FixedBody(at: Ptr)
    | StampBody(year: int, month: byte, day: byte, milli: nat)
    | FloatBody(exp: int, sign: byte, at: Ptr)
    | StrBody(length: nat, at: Ptr)
    | BlobBody(at: Ptr)

  datatype Element = Element(kind: VkType, isNull: bool, body: Body)

  const ZERO := Element(VK_UNKNOW, false, NoBody)

  // Sizes of the C structures.
  const SIZEOF_TIMESTAMP := 8
  const SIZEOF_FLOAT := 24
  const SIZEOF_STRING := 16
  const SIZEOF_BLOB := 16

  function Target(b: Body): Ptr {
    match b
    case FixedBody(at) => at
    case FloatBody(_, _, at) => at
    case StrBody(_, at) => at
    case BlobBody(at) => at
    case _ => NullPtr
  }

  /** The block lies in the memory m handed out so far. */
  ghost predicate InMemory(p: Ptr, m: seq<Held>) {
    p.Block? ==> p.chunk.index < |m| && m[p.chunk.index].chunk == p.chunk && p.off + p.len <= |m[p.chunk.index].bytes|
  }

  ghost function At(p: Ptr, m: seq<Held>): seq<byte>
    requires InMemory(p, m)
  {
    if p.Block? then m[p.chunk.index].bytes[p.off..p.off + p.len] else []
  }

  /** The value an element stands for, given the bytes its pointers lead to. A string's
      block also holds its two terminating zeros. */
  ghost function Meaning(e: Element, m: seq<Held>): Value
    requires InMemory(Target(e.body), m)
  {
    if e.isNull then Null else
      match e.body
      case NoBody => Null
      case FixedBody(at) => Fixed(At(at, m))
      case StampBody(year, month, day, milli) => Stamp(year, month, day, milli)
      case FloatBody(exp, sign, at) => Float(exp, sign, At(at, m))
      case StrBody(length, at) => Str(At(at, m)[..Bytes.Min(2 * length, |At(at, m)|)])
      case BlobBody(at) => Blob(At(at, m))
  }

  lemma AtKept(p: Ptr, m: seq<Held>, m': seq<Held>)
    requires Precedes(m, m') && InMemory(p, m)
    ensures InMemory(p, m') && At(p, m') == At(p, m)
  {
    if p.Block? {
      assert m[p.chunk.index].bytes <= m'[p.chunk.index].bytes;
    }
  }

  /** Later allocations and reads do not disturb what an element means. */
  lemma MeaningKept(e: Element, m: seq<Held>, m': seq<Held>)
    requires Precedes(m, m') && InMemory(Target(e.body), m)
    ensures InMemory(Target(e.body), m') && Meaning(e, m') == Meaning(e, m)
  {
    AtKept(Target(e.body), m, m');
    hide At, InMemory, Precedes;
  }

  ghost predicate AllIn(es: seq<Element>, m: seq<Held>) {
    forall i :: 0 <= i < |es| ==> InMemory(Target(es[i].body), m)
  }

  ghost function Meanings(es: seq<Element>, m: seq<Held>): (vs: seq<Value>)
    requires AllIn(es, m)
    ensures |vs| == |es|
  {
    seq(|es|, i requires 0 <= i < |es| && AllIn(es, m) => Meaning(es[i], m))
  }

  lemma MeaningsKept(es: seq<Element>, m: seq<Held>, m': seq<Held>)
    requires Precedes(m, m') && AllIn(es, m)
    ensures AllIn(es, m') && Meanings(es, m') == Meanings(es, m)
  {
    hide Precedes, InMemory, Meaning;
    forall i | 0 <= i < |es|
      ensures InMemory(Target(es[i].body), m') && Meaning(es[i], m') == Meaning(es[i], m)
    {
      MeaningKept(es[i], m, m');
    }
  }

  lemma MeaningsAppend(es: seq<Element>, e: Element, m: seq<Held>)
    requires AllIn(es, m) && InMemory(Target(e.body), m)
    ensures AllIn(es + [e], m) && Meanings(es + [e], m) == Meanings(es, m) + [Meaning(e, m)]
  {
    hide InMemory, Meaning;
  }

  /** One result. Header fields, the window of rows received, and the values behind them. */
  class Result {
    const cnx: Connection
    var ok: bool               // status == FOURD_OK
    var errorCode: int
    var resultType: ResultType
    var statementId: int
    var updateable: bool
    var rowCount: nat
    var rowCountSent: nat
    var columns: seq<Column>
    var firstRow: nat
    var numRow: nat
    var pageSize: nat
    var elmt: array?<Element>
    var arena: Arena

    ghost predicate Valid()
      reads this, cnx, arena, arena.Repr
    {
      && cnx.Valid() && arena.Valid()
      && {this, cnx, cnx.rbuf, cnx.socket} !! arena.Repr
      && (elmt != null ==> elmt !in arena.Repr)
    }

    /** The fields that reply headers set, as a value. */
    function Fields(): Info
      reads this
    {
      Info(ok, errorCode, resultType, statementId, updateable, rowCount, rowCountSent, columns)
    }

    constructor (cnx: Connection)
      requires cnx.Valid()
      ensures Valid() && this.cnx == cnx && fresh(arena) && fresh(arena.Repr) && arena.chunks == []
      ensures Fields() == NO_INFO && firstRow == 0 && numRow == 0 && pageSize == 0 && elmt == null
    {
      this.cnx := cnx;
      ok, errorCode, resultType, statementId, updateable := true, 0, UNKNOW, 0, false;
      rowCount, rowCountSent, columns, firstRow, numRow, pageSize := 0, 0, [], 0, 0, 0;
      elmt := null;
      arena := new Arena();
    }

    /** What recording the fault e leaves behind, on the result and on the connection. */
    ghost predicate Noted(e: ReadError)
      reads this, cnx
    {
      !ok && errorCode == FaultCode(e) && cnx.failed && cnx.errorCode == errorCode && errorCode != 0
    }

    /** The stream ended. */
    method ReadFailed()
      modifies `ok, `errorCode, cnx`failed, cnx`errorCode
      ensures old(errorCode) == 0 ==> Noted(Lost)
    {
      ok := false;
      if errorCode == 0 {
        errorCode := -1;
      }
      cnx.errorCode, cnx.failed := errorCode, true;
    }

    /** The stream is malformed; a code the server sent was stored before. */
    method ProtoFailed(ghost what: Fault, ghost row: nat, ghost col: nat)
      modifies `ok, `errorCode, cnx`failed, cnx`errorCode
      ensures Noted(Malformed(what, row, col, if old(errorCode) == 0 then -1 else old(errorCode)))
    {
      ok := false;
      if errorCode == 0 {
        errorCode := -1;
      }
      cnx.errorCode, cnx.failed := errorCode, true;
    }

    /** Reads the 8-byte code behind a '2' status; that it arrives is not checked. */
    method ReadServerCode(ghost what: Fault, ghost row: nat, ghost col: nat)
      requires Valid() && errorCode == 0
      modifies `ok, `errorCode, cnx`failed, cnx`errorCode, cnx`pos, cnx`len, cnx.rbuf, cnx.socket`incoming
      ensures Valid() && Noted(Malformed(what, row, col, ServerCode(old(cnx.Pending()))))
    {
      hide FromSignedLe;
      ghost var s := cnx.Pending();
      var got, b := cnx.RecvBytes(8);
      assert b == s[..Bytes.Min(8, |s|)] + seq(8 - Bytes.Min(8, |s|), i => 0);
      errorCode := FromSignedLe(b);
      ProtoFailed(what, row, col);
    }

    /** Allocates a block and receives the first n of its bytes. */
    method AllocRecv(size: nat, n: nat) returns (ok: bool, p: Ptr)
      requires Valid() && n <= size <= SIZE_MAX - 7
      modifies arena.Repr, cnx`pos, cnx`len, cnx.rbuf, cnx.socket`incoming
      ensures Valid() && fresh(arena.Repr - old(arena.Repr)) && old(arena.Repr) <= arena.Repr
      ensures Precedes(old(arena.Memory()), arena.Memory())
      ensures ok <==> n <= |old(cnx.Pending())|
      ensures !ok ==> cnx.Pending() == []
      ensures p.Block? && p.len == size && InMemory(p, arena.Memory())
      ensures ok ==> At(p, arena.Memory())[..n] == old(cnx.Pending())[..n] && cnx.Pending() == old(cnx.Pending())[n..]
      ensures NewBlock(p, old(arena.Memory()))
    {
      hide Connection.Pending, Precedes, Shape, Arena.Linked, Arena.Memory;
      ghost var m0 := arena.Memory();
      p := arena.Alloc(size);
      ghost var m := arena.Memory();
      arena.Owned();
      ok := Fill(p, n);
      Arena.WroteKeeps(m0, m, arena.Memory(), arena.head.index, p.off);
    }

    /** p is the newest block and lies past everything in m0. */
    ghost predicate NewBlock(p: Ptr, m0: seq<Held>)
      reads this, arena, if p.Block? then {p.chunk} else {}
    {
      && p.Block? && p.chunk == arena.head && p.chunk.data in arena.Repr
      && p.off + p.len <= p.chunk.used <= p.chunk.data.Length
      && (p.chunk.index < |m0| ==> |m0[p.chunk.index].bytes| <= p.off)
    }

    /** Receives n bytes at the start of the newest block. */
    method Fill(p: Ptr, n: nat) returns (ok: bool)
      requires Valid() && p.Block? && p.chunk == arena.head && n <= p.len
      requires p.off + p.len <= p.chunk.used <= p.chunk.data.Length
      modifies arena.Repr, cnx`pos, cnx`len, cnx.rbuf, cnx.socket`incoming
      ensures Valid() && unchanged(arena) && unchanged(p.chunk) && p.chunk.data in arena.Repr
      ensures ok <==> n <= |old(cnx.Pending())|
      ensures !ok ==> cnx.Pending() == []
      ensures ok ==> cnx.Pending() == old(cnx.Pending())[n..]
      ensures arena.Linked() && Kept(p.off, old(arena.Memory()), arena.Memory())
      ensures InMemory(p, arena.Memory())
      ensures ok ==> At(p, arena.Memory())[..n] == old(cnx.Pending())[..n]
    {
      hide Spliced, Connection.Pending, Shape, Arena.Linked, Arena.Memory;
      ghost var was, got := p.chunk.data[..], cnx.Pending()[..Bytes.Min(n, |cnx.Pending()|)];
      arena.Owned();
      ok := cnx.BufRecv(p.chunk.data, p.off, n);
      ghost var d := p.chunk.data[..];
      assert p.chunk.data[..p.off] == d[..p.off] == was[..p.off];
      arena.WroteMemory(p.off);
      assert p.chunk.data[p.off..p.chunk.used] == d[p.off..p.chunk.used];
      Part(d, p.off, p.chunk.used, p.len);
      Part(d, p.off, p.off + p.len, |got|);
      ghost var b := arena.Memory()[arena.head.index].bytes;
      Part(b, p.off, |b|, p.len);
      assert At(p, arena.Memory()) == b[p.off..][..p.len] == d[p.off..p.off + p.len];
      assert d[p.off..p.off + |got|] == got;
    }

    static lemma Part(d: seq<byte>, off: nat, used: nat, k: nat)
      requires off + k <= used <= |d|
      ensures d[off..used][..k] == d[off..off + k]
    {
    }

    /** The newest chunk's bytes before off and all other chunks are as they were. */
    static ghost predicate Kept(off: nat, m: seq<Held>, m': seq<Held>) {
      && |m| == |m'| > 0
      && var n := |m| - 1;
         && (forall i :: 0 <= i < n ==> m'[i] == m[i])
         && m'[n].chunk == m[n].chunk && off <= |m[n].bytes| && off <= |m'[n].bytes|
         && m'[n].bytes[..off] == m[n].bytes[..off]
    }

    /** What the outcome p of decoding one value leaves behind. */
    ghost predicate CellDone(p: Parsed<Value>, bad: bool, e: Element)
      reads this, cnx, cnx.rbuf, cnx.socket, arena, arena.Repr
      requires Valid()
    {
      match p
      case Ok(v, rest) =>
        && !bad && errorCode == 0 && cnx.Pending() == rest
        && InMemory(Target(e.body), arena.Memory()) && Meaning(e, arena.Memory()) == v
      case Fail(err) => bad && Noted(err)
    }

    /** Values received before stay; on success no error field changes. */
    twostate predicate Steady(bad: bool)
      requires old(Valid()) && Valid()
      reads this, cnx, arena, arena.Repr
    {
      && fresh(arena.Repr - old(arena.Repr)) && old(arena.Repr) <= arena.Repr
      && Precedes(old(arena.Memory()), arena.Memory())
      && cnx.connected == old(cnx.connected) && cnx.updatedRow == old(cnx.updatedRow)
      && (!bad ==> ok == old(ok) && errorCode == old(errorCode)
                   && cnx.errorCode == old(cnx.errorCode) && cnx.failed == old(cnx.failed))
    }

    /** A value of fixed size, copied as it is. */
    method ReceiveFixed(t: VkType, ghost r: nat, ghost c: nat) returns (bad: bool, e: Element)
      requires Valid() && errorCode == 0 && IsFixed(t)
      modifies `ok, `errorCode, arena.Repr, cnx, cnx.rbuf, cnx.socket`incoming
      ensures Valid() && Steady(bad) && CellDone(DecodePayload(t, old(cnx.Pending()), r, c), bad, e)
    {
      hide Connection.Pending, Precedes, Shape, Arena.Linked, Arena.Memory;
      var n := VkSizeof(t);
      var got, p := AllocRecv(n, n);
      e := Element(t, false, FixedBody(p));
      bad := !got;
      if bad {
        ReadFailed();
      }
    }

    /** Field by field: year, month, day, milliseconds. */
    method ReceiveStamp(ghost r: nat, ghost c: nat) returns (bad: bool, e: Element)
      requires Valid() && errorCode == 0
      modifies `ok, `errorCode, arena.Repr, cnx, cnx.rbuf, cnx.socket`incoming
      ensures Valid() && Steady(bad) && CellDone(DecodePayload(VK_TIMESTAMP, old(cnx.Pending()), r, c), bad, e)
    {
      hide Connection.Pending, Precedes, Shape, Arena.Linked, Arena.Memory, FromLe, FromSignedLe;
      e := ZERO;
      StructBlock(SIZEOF_TIMESTAMP);
      var got, year, month, day, milli := cnx.RecvStamp();
      bad := !got;
      if bad {
        ReadFailed();
      } else {
        e := Element(VK_TIMESTAMP, false, StampBody(FromSignedLe(year), month, day, FromLe(milli)));
      }
    }

    /** The block of a fixed-size structure. */
    method StructBlock(size: nat)
      requires Valid() && size <= SIZE_MAX - 7
      modifies arena.Repr
      ensures Valid() && fresh(arena.Repr - old(arena.Repr)) && old(arena.Repr) <= arena.Repr
      ensures Precedes(old(arena.Memory()), arena.Memory())
      ensures cnx.Pending() == old(cnx.Pending())
    {
      hide Connection.Pending, Precedes, Shape, Arena.Linked, Arena.Memory;
      ghost var s := cnx.Pending();
      var p := arena.Alloc(size);
    }

    /** Exponent, sign, length, then that many bytes. */
    method ReceiveFloat(ghost r: nat, ghost c: nat) returns (bad: bool, e: Element)
      requires Valid() && errorCode == 0
      modifies `ok, `errorCode, arena.Repr, cnx, cnx.rbuf, cnx.socket`incoming
      ensures Valid() && Steady(bad) && CellDone(DecodeFloat(old(cnx.Pending()), r, c), bad, e)
    {
      hide Connection.Pending, Precedes, Shape, Arena.Linked, Arena.Memory, FromSignedLe;
      ghost var s := cnx.Pending();
      e := ZERO;
      ghost var m0 := arena.Memory();
      StructBlock(SIZEOF_FLOAT);
      ghost var m1 := arena.Memory();
      var got, exp, sign, size := cnx.RecvFloatHead();
      if !got {
        ReadFailed();
        return true, e;
      }
      var n := FromSignedLe(size);
      if n < 0 || n > MAX_FLOAT_BYTES {
        ProtoFailed(BadFloatLength, r, c);
        return true, e;
      }
      var p;
      bad, p := ReceiveDigits(n, m0, m1);
      if !bad {
        assert s[9..][n..] == s[9 + n..] && s[9..][..n] == s[9..9 + n];
      }
      e := Element(VK_FLOAT, false, FloatBody(FromSignedLe(exp), sign, p));
    }

    /** The digits of a FLOAT; no block when there are none. */
    method ReceiveDigits(n: nat, ghost m0: seq<Held>, ghost m1: seq<Held>) returns (bad: bool, p: Ptr)
      requires Valid() && n <= MAX_FLOAT_BYTES && errorCode == 0
      requires Precedes(m0, m1) && m1 == arena.Memory()
      modifies `ok, `errorCode, arena.Repr, cnx, cnx.rbuf, cnx.socket`incoming
      ensures Valid() && Steady(bad) && Precedes(m0, arena.Memory())
      ensures bad <==> |old(cnx.Pending())| < n
      ensures bad ==> Noted(Lost)
      ensures InMemory(p, arena.Memory())
      ensures !bad ==> At(p, arena.Memory()) == old(cnx.Pending())[..n] && cnx.Pending() == old(cnx.Pending())[n..]
    {
      hide Connection.Pending, Precedes, Shape, Arena.Linked, Arena.Memory;
      Same(m1);
      if n == 0 {
        return false, NullPtr;
      }
      bad, p := ReceiveBlock(n, n, m0, m1);
    }

    /** A value's variable part: n bytes received into a new block. */
    method ReceiveBlock(size: nat, n: nat, ghost m0: seq<Held>, ghost m1: seq<Held>) returns (bad: bool, p: Ptr)
      requires Valid() && n <= size <= SIZE_MAX - 7 && errorCode == 0
      requires Precedes(m0, m1) && m1 == arena.Memory()
      modifies `ok, `errorCode, arena.Repr, cnx, cnx.rbuf, cnx.socket`incoming
      ensures Valid() && Steady(bad) && Precedes(m0, arena.Memory())
      ensures bad <==> |old(cnx.Pending())| < n
      ensures bad ==> Noted(Lost)
      ensures p.Block? && p.len == size && InMemory(p, arena.Memory())
      ensures !bad ==> At(p, arena.Memory())[..n] == old(cnx.Pending())[..n] && cnx.Pending() == old(cnx.Pending())[n..]
      ensures NewBlock(p, m1)
    {
      hide Connection.Pending, Precedes, Shape, Arena.Linked, Arena.Memory;
      var got;
      got, p := AllocRecv(size, n);
      bad := !got;
      if bad {
        ReadFailed();
      }
      Arena.PrecedesTwice(m0, m1, arena.Memory());
    }

    /** Two zero bytes at position n of the newest block. */
    method Terminate(p: Ptr, n: nat, ghost m0: seq<Held>, ghost m1: seq<Held>)
      requires Valid() && NewBlock(p, m1) && p.len == n + 2 && InMemory(p, arena.Memory())
      requires Precedes(m0, m1) && Precedes(m1, arena.Memory())
      modifies p.chunk.data
      ensures Valid() && NewBlock(p, m1) && InMemory(p, arena.Memory())
      ensures Precedes(m0, arena.Memory()) && Precedes(m1, arena.Memory())
      ensures At(p, arena.Memory()) == old(At(p, arena.Memory()))[..n] + [0, 0]
      ensures cnx.Pending() == old(cnx.Pending())
    {
      hide Connection.Pending, Precedes, Shape, Arena.Linked, Arena.Memory;
      ghost var m, a, was := arena.Memory(), arena, p.chunk.data[..];
      label L:
      p.chunk.data[p.off + n], p.chunk.data[p.off + n + 1] := 0, 0;
      assert a.head.data[..p.off + n] == was[..p.off + n] == old@L(a.head.data[..p.off + n]);
      assert p.chunk.data[p.off + n..p.off + n + 2] == [0, 0];
      assert a.Wrote@L(p.off + n);
      a.WroteShape@L(p.off + n);
      a.WroteMemory@L(p.off + n);
      Arena.WroteKeeps(m1, m, a.Memory(), a.head.index, p.off + n);
      Arena.PrecedesTwice(m0, m1, a.Memory());
      TailWritten(m[p.chunk.index].bytes, a.Memory()[p.chunk.index].bytes, p.off, n);
    }

    static lemma TailWritten(x: seq<byte>, y: seq<byte>, off: nat, n: nat)
      requires off + n + 2 <= |x| && off + n + 2 <= |y|
      requires y[..off + n] == x[..off + n] && y[off + n..off + n + 2] == [0, 0]
      ensures y[off..off + n + 2] == x[off..off + n + 2][..n] + [0, 0]
    {
      assert y[off..off + n] == y[..off + n][off..] == x[..off + n][off..];
      assert y[off..off + n + 2] == y[off..off + n] + y[off + n..off + n + 2];
    }

    /** Allocates the structure of a value and reads its 4-byte length. */
    method ReceiveLength(size: nat) returns (bad: bool, n: int)
      requires Valid() && errorCode == 0 && size <= SIZE_MAX - 7
      modifies `ok, `errorCode, arena.Repr, cnx, cnx.rbuf, cnx.socket`incoming
      ensures Valid() && Steady(bad)
      ensures bad <==> |old(cnx.Pending())| < 4
      ensures bad ==> Noted(Lost)
      ensures !bad ==> n == FromSignedLe(old(cnx.Pending())[..4]) && cnx.Pending() == old(cnx.Pending())[4..]
    {
      hide Connection.Pending, Precedes, Shape, Arena.Linked, Arena.Memory, FromSignedLe;
      StructBlock(size);
      var got, b := cnx.RecvBytes(4);
      n := FromSignedLe(b);
      bad := !got;
      if bad {
        ReadFailed();
      }
    }

    /** A negated count of UTF-16 units, then that many; two zero bytes are put behind them. */
    method ReceiveString(ghost r: nat, ghost c: nat) returns (bad: bool, e: Element)
      requires Valid() && errorCode == 0
      modifies `ok, `errorCode, arena.Repr, cnx, cnx.rbuf, cnx.socket`incoming
      ensures Valid() && Steady(bad) && CellDone(DecodeString(old(cnx.Pending()), r, c), bad, e)
    {
      hide Connection.Pending, Precedes, Shape, Arena.Linked, Arena.Memory, FromSignedLe;
      ghost var s := cnx.Pending();
      e := ZERO;
      ghost var m0 := arena.Memory();
      var n;
      bad, n := ReceiveLength(SIZEOF_STRING);
      ghost var m1 := arena.Memory();
      if bad {
        return true, e;
      }
      if n > 0 || n == -0x8000_0000 {
        ProtoFailed(BadStringLength, r, c);
        return true, e;
      }
      n := -n;
      if n > MAX_STRING_CHARS {
        ProtoFailed(StringTooLong, r, c);
        return true, e;
      }
      var p;
      bad, p := ReceiveUnits(n, m0, m1);
      if !bad {
        assert s[4..][2 * n..] == s[4 + 2 * n..] && s[4..][..2 * n] == s[4..4 + 2 * n];
      }
      e := Element(VK_STRING, false, StrBody(n, p));
    }

    /** A string's units, with two zero bytes behind them. */
    method ReceiveUnits(n: nat, ghost m0: seq<Held>, ghost m1: seq<Held>) returns (bad: bool, p: Ptr)
      requires Valid() && n <= MAX_STRING_CHARS && errorCode == 0
      requires Precedes(m0, m1) && m1 == arena.Memory()
      modifies `ok, `errorCode, arena.Repr, cnx, cnx.rbuf, cnx.socket`incoming
      ensures Valid() && Steady(bad) && Precedes(m0, arena.Memory())
      ensures bad <==> |old(cnx.Pending())| < 2 * n
      ensures bad ==> Noted(Lost)
      ensures InMemory(p, arena.Memory())
      ensures !bad ==> At(p, arena.Memory()) == old(cnx.Pending())[..2 * n] + [0, 0]
      ensures !bad ==> cnx.Pending() == old(cnx.Pending())[2 * n..]
    {
      hide Connection.Pending, Precedes, Shape, Arena.Linked, Arena.Memory;
      bad, p := ReceiveBlock(2 * n + 2, 2 * n, m0, m1);
      if !bad {
        Terminate(p, 2 * n, m0, m1);
      }
    }

    /** A length, then that many bytes; an empty one is null. */
    method ReceiveBlob(t: VkType, ghost r: nat, ghost c: nat) returns (bad: bool, e: Element)
      requires Valid() && errorCode == 0
      modifies `ok, `errorCode, arena.Repr, cnx, cnx.rbuf, cnx.socket`incoming
      ensures Valid() && Steady(bad) && CellDone(DecodeBlob(old(cnx.Pending()), r, c), bad, e)
    {
      hide Connection.Pending, Precedes, Shape, Arena.Linked, Arena.Memory, FromSignedLe;
      ghost var s := cnx.Pending();
      e := ZERO;
      ghost var m0 := arena.Memory();
      var n;
      bad, n := ReceiveLength(SIZEOF_BLOB);
      ghost var m1 := arena.Memory();
      if bad {
        return true, e;
      }
      if n < 0 || n > MAX_BLOB_BYTES {
        ProtoFailed(BadBlobLength, r, c);
        return true, e;
      }
      if n == 0 {
        return false, Element(t, true, BlobBody(NullPtr));
      }
      var p;
      bad, p := ReceiveBlock(n, n, m0, m1);
      if !bad {
        assert s[4..][n..] == s[4 + n..] && s[4..][..n] == s[4..4 + n];
      }
      e := Element(t, false, BlobBody(p));
    }

    /** One cell: a status byte and, for '1', the value. */
    method ReceiveCell(t: VkType, ghost r: nat, ghost c: nat) returns (bad: bool, e: Element)
      requires Valid() && errorCode == 0
      modifies `ok, `errorCode, arena.Repr, cnx, cnx.rbuf, cnx.socket`incoming
      ensures Valid() && Steady(bad) && CellDone(DecodeCell(t, old(cnx.Pending()), r, c), bad, e)
    {
      hide Connection.Pending, Precedes, Shape, Arena.Linked, Arena.Memory, DecodeFloat, DecodeString, DecodeBlob,
        ServerCode;
      Same(arena.Memory());
      e := Element(t, true, NoBody);
      var got, status := cnx.RecvBytes(1);
      if !got {
        ReadFailed();
        return true, e;
      }
      if status[0] == STATUS_NULL {
        return false, e;
      }
      if status[0] == STATUS_ERROR {
        ReadServerCode(ServerColumnError, r, c);
        return true, e;
      }
      if status[0] != STATUS_VALUE {
        ProtoFailed(BadColumnStatus, r, c);
        return true, e;
      }
      bad, e := ReceiveValue(t, r, c);
    }

    static lemma Same(m: seq<Held>)
      ensures Precedes(m, m)
    {
    }

    method ReceiveValue(t: VkType, ghost r: nat, ghost c: nat) returns (bad: bool, e: Element)
      requires Valid() && errorCode == 0
      modifies `ok, `errorCode, arena.Repr, cnx, cnx.rbuf, cnx.socket`incoming
      ensures Valid() && Steady(bad) && CellDone(DecodePayload(t, old(cnx.Pending()), r, c), bad, e)
    {
      hide Connection.Pending, Precedes, Shape, Arena.Linked, Arena.Memory, DecodeFloat, DecodeString, DecodeBlob;
      match t
      case VK_BOOLEAN | VK_BYTE | VK_WORD | VK_LONG | VK_LONG8 | VK_REAL | VK_DURATION =>
        bad, e := ReceiveFixed(t, r, c);
      case VK_TIMESTAMP => bad, e := ReceiveStamp(r, c);
      case VK_FLOAT => bad, e := ReceiveFloat(r, c);
      case VK_STRING => bad, e := ReceiveString(r, c);
      case VK_IMAGE | VK_BLOB => bad, e := ReceiveBlob(t, r, c);
      case _ =>
        Same(arena.Memory());
        e := ZERO;
        bad := true;
        ProtoFailed(BadColumnType, r, c);
    }

    /** The elements below k stand for vs. */
    ghost predicate Holds(k: nat, vs: seq<Value>)
      reads `elmt, `arena, elmt, arena, arena.Repr
    {
      HoldsAt(elmt, arena, k, vs)
    }

    static ghost predicate HoldsAt(elmt: array?<Element>, arena: Arena, k: nat, vs: seq<Value>)
      reads elmt, arena, arena.Repr
    {
      && elmt != null && k <= elmt.Length && arena.Linked()
      && AllIn(elmt[..k], arena.Memory()) && Meanings(elmt[..k], arena.Memory()) == vs
    }

    /** Receives one cell into element k. */
    method StoreCell(t: VkType, ghost r: nat, ghost c: nat, k: nat, ghost vs: seq<Value>) returns (bad: bool)
      requires Valid() && errorCode == 0 && Holds(k, vs) && k < elmt.Length
      modifies `ok, `errorCode, arena.Repr, cnx, cnx.rbuf, cnx.socket`incoming, elmt
      ensures Valid() && Steady(bad)
      ensures match DecodeCell(t, old(cnx.Pending()), r, c)
              case Ok(v, rest) => !bad && errorCode == 0 && cnx.Pending() == rest && Holds(k + 1, vs + [v])
              case Fail(err) => bad && Noted(err)
    {
      hide Connection.Pending, Precedes, Shape, Arena.Linked, Arena.Memory, DecodeCell, Meaning, InMemory, AllIn,
        Meanings;
      ghost var m0, es := arena.Memory(), elmt[..k];
      var e;
      bad, e := ReceiveCell(t, r, c);
      MeaningsKept(es, m0, arena.Memory());
      elmt[k] := e;
      assert elmt[..k + 1] == es + [e];
      if !bad {
        MeaningsAppend(es, e, arena.Memory());
      }
    }

    /** Rows of updateable results start with a status and possibly a row id, which is dropped. */
    method ReceivePrefix(ghost r: nat) returns (bad: bool)
      requires Valid() && errorCode == 0
      modifies `ok, `errorCode, cnx, cnx.rbuf, cnx.socket`incoming
      ensures Valid() && Steady(bad) && arena.Memory() == old(arena.Memory())
      ensures match DecodePrefix(updateable, old(cnx.Pending()), r)
              case Ok(_, rest) => !bad && errorCode == 0 && cnx.Pending() == rest
              case Fail(err) => bad && Noted(err)
    {
      hide Connection.Pending, Precedes, Shape, Arena.Linked, Arena.Memory, ServerCode;
      Same(arena.Memory());
      if !updateable {
        return false;
      }
      ghost var s := cnx.Pending();
      var got, status := cnx.RecvBytes(1);
      if !got {
        ReadFailed();
        return true;
      }
      if status[0] == STATUS_VALUE {
        var id;
        got, id := cnx.RecvBytes(4);
        if !got {
          ReadFailed();
          return true;
        }
        assert s[1..][4..] == s[5..];
      } else if status[0] == STATUS_ERROR {
        ReadServerCode(ServerRowError, r, 0);
        return true;
      } else if status[0] != STATUS_NULL {
        ProtoFailed(BadRowStatus, r, 0);
        return true;
      }
      bad := false;
    }

    /** The cells below c of the row stored from k on have been received, as `done`; with the
        cells still to come the row decodes to `whole`. */
    ghost predicate RowSoFar(types: seq<VkType>, r: nat, c: nat, k: nat, vs: seq<Value>, done: seq<Value>,
                             whole: Parsed<seq<Value>>)
      requires Valid() && c <= |types|
      reads this, elmt, arena, arena.Repr, cnx, cnx.rbuf, cnx.socket
    {
      && errorCode == 0 && elmt != null && k + |types| <= elmt.Length
      && Holds(k + c, vs + done)
      && whole == Prepend(done, DecodeCells(types, c, cnx.Pending(), r))
    }

    /** Cell c of a row whose decoding as a whole is `whole`. */
    method NextCell(types: seq<VkType>, ghost r: nat, c: nat, k: nat, ghost vs: seq<Value>, ghost done: seq<Value>,
                    ghost whole: Parsed<seq<Value>>, ghost m0: seq<Held>)
      returns (bad: bool, ghost done': seq<Value>)
      requires Valid() && c < |types| && RowSoFar(types, r, c, k, vs, done, whole)
      requires Precedes(m0, arena.Memory())
      modifies `ok, `errorCode, arena.Repr, cnx, cnx.rbuf, cnx.socket`incoming, elmt
      ensures Valid() && Steady(bad) && Precedes(m0, arena.Memory())
      ensures bad ==> whole.Fail? && Noted(whole.error)
      ensures !bad ==> RowSoFar(types, r, c + 1, k, vs, done', whole)
    {
      hide Connection.Pending, Precedes, Shape, Arena.Linked, Arena.Memory, DecodeCell, Holds, DecodeCells, Prepend;
      ghost var s := cnx.Pending();
      ghost var m := arena.Memory();
      CellsStep(types, c, s, r, done);
      bad := StoreCell(types[c], r, c, k + c, vs + done);
      Arena.PrecedesTwice(m0, m, arena.Memory());
      done' := done;
      if !bad {
        ghost var v := DecodeCell(types[c], s, r, c).value;
        assert vs + done + [v] == vs + (done + [v]);
        done' := done + [v];
      }
    }

    /** The cells of one row, stored from element k on. */
    method ReceiveRow(types: seq<VkType>, ghost r: nat, k: nat, ghost vs: seq<Value>, ghost whole: Parsed<seq<Value>>)
      returns (bad: bool)
      requires Valid() && RowSoFar(types, r, 0, k, vs, [], whole)
      modifies `ok, `errorCode, arena.Repr, cnx, cnx.rbuf, cnx.socket`incoming, elmt
      ensures Valid() && Steady(bad)
      ensures bad ==> whole.Fail? && Noted(whole.error)
      ensures !bad ==> whole.Ok? && errorCode == 0 && cnx.Pending() == whole.rest
      ensures !bad ==> Holds(k + |types|, vs + whole.value)
    {
      assert arena.Linked();
      hide Connection.Pending, Precedes, Shape, Arena.Linked, Arena.Memory, Noted, Arena.Valid, RowSoFar, Holds;
      ghost var m0 := arena.Memory();
      ghost var done: seq<Value> := [];
      Same(m0);
      var c := 0;
      while c < |types|
        invariant c <= |types| && Valid() && Steady(false)
        invariant RowSoFar(types, r, c, k, vs, done, whole)
      {
        bad, done := NextCell(types, r, c, k, vs, done, whole, m0);
        if bad {
          return;
        }
        c := c + 1;
      }
      RowDone(types, r, k, vs, done, whole);
      bad := false;
    }

    lemma RowDone(types: seq<VkType>, r: nat, k: nat, vs: seq<Value>, done: seq<Value>, whole: Parsed<seq<Value>>)
      requires Valid() && RowSoFar(types, r, |types|, k, vs, done, whole)
      ensures whole == Ok(done, cnx.Pending()) && errorCode == 0 && Holds(k + |types|, vs + done)
    {
      hide Connection.Pending, Holds;
      assert done + [] == done;
    }

    lemma RowStarts(types: seq<VkType>, r: nat, k: nat, vs: seq<Value>, whole: Parsed<seq<Value>>)
      requires Valid() && errorCode == 0 && elmt != null && k + |types| <= elmt.Length && Holds(k, vs)
      requires whole == DecodeCells(types, 0, cnx.Pending(), r)
      ensures RowSoFar(types, r, 0, k, vs, [], whole)
    {
      hide Connection.Pending, Holds, DecodeCells;
      Unprefixed(whole);
      assert vs + [] == vs;
    }

    static lemma CellsStep(types: seq<VkType>, c: nat, s: seq<byte>, r: nat, done: seq<Value>)
      requires c < |types|
      ensures match DecodeCell(types[c], s, r, c)
              case Fail(e) => Prepend(done, DecodeCells(types, c, s, r)) == Parsed.Fail(e)
              case Ok(v, s1) =>
                Prepend(done, DecodeCells(types, c, s, r)) == Prepend(done + [v], DecodeCells(types, c + 1, s1, r))
    {
      hide DecodeCell;
      match DecodeCell(types[c], s, r, c)
      case Fail(_) =>
      case Ok(v, s1) => PrependTwice(done, [v], DecodeCells(types, c + 1, s1, r));
    }

    static lemma Unprefixed(p: Parsed<seq<Value>>)
      ensures Prepend([], p) == p
    {
      if p.Ok? {
        assert [] + p.value == p.value;
      }
    }

    static lemma PrependTwice(a: seq<Value>, b: seq<Value>, p: Parsed<seq<Value>>)
      ensures Prepend(a, Prepend(b, p)) == Prepend(a + b, p)
    {
      if p.Ok? {
        assert a + (b + p.value) == a + b + p.value;
      }
    }

    /** The whole body of a result, into a new element table. */
    method ReceiveData() returns (bad: bool)
      requires Valid() && errorCode == 0 && arena.chunks == []
      modifies this, arena.Repr, cnx, cnx.rbuf, cnx.socket`incoming
      ensures Valid() && Steady(bad) && arena == old(arena)
      ensures Fields().(ok := true, errorCode := 0) == old(Fields()).(ok := true, errorCode := 0)
      ensures firstRow == old(firstRow) && numRow == old(numRow) && pageSize == old(pageSize)
      ensures elmt == null || fresh(elmt)
      ensures match Protocol.Body(old(Fields()), old(cnx.Pending()))
              case Ok(cells, rest) => !bad && cnx.Pending() == rest && PageIs(cells)
              case Fail(err) => bad && Noted(err)
    {
      hide Connection.Pending, Precedes, Shape, Arena.Linked, Arena.Memory, DecodeCell, DecodeCells, DecodePrefix;
      ghost var m0 := arena.Memory();
      Same(m0);
      var types := Types(columns);
      var nbCol, nbRow := |types|, rowCountSent;
      elmt := null;
      if nbCol == 0 || nbRow == 0 {
        return false;
      }
      elmt := new Element[nbCol * nbRow](_ => ZERO);
      bad := ReceiveRows(types, nbRow);
    }

    /** The page's cells, in the order of the element table. */
    ghost predicate PageIs(cells: seq<Value>)
      reads `elmt, `arena, elmt, arena, arena.Repr
    {
      PageAt(elmt, arena, cells)
    }

    static ghost predicate PageAt(elmt: array?<Element>, arena: Arena, cells: seq<Value>)
      reads elmt, arena, arena.Repr
    {
      if elmt == null then cells == [] else HoldsAt(elmt, arena, elmt.Length, cells)
    }

    lemma PageElement(i: nat, cells: seq<Value>)
      requires PageIs(cells) && i < |cells|
      ensures elmt != null && i < elmt.Length && arena.Linked()
      ensures InMemory(Target(elmt[i].body), arena.Memory()) && Meaning(elmt[i], arena.Memory()) == cells[i]
    {
      hide Arena.Linked, Arena.Memory, Meaning, InMemory;
      assert elmt[..elmt.Length][i] == elmt[i];
    }

    method ReceiveRows(types: seq<VkType>, n: nat) returns (bad: bool)
      requires Valid() && errorCode == 0 && elmt != null && elmt.Length == |types| * n
      modifies `ok, `errorCode, arena.Repr, cnx, cnx.rbuf, cnx.socket`incoming, elmt
      ensures Valid() && Steady(bad)
      ensures match DecodeRows(types, updateable, 0, n, old(cnx.Pending()))
              case Ok(cells, rest) => !bad && cnx.Pending() == rest && Holds(elmt.Length, cells)
              case Fail(err) => bad && Noted(err)
    {
      hide Connection.Pending, Precedes, Shape, Arena.Linked, Arena.Memory, DecodeCells, DecodePrefix, Holds;
      ghost var whole := DecodeRows(types, updateable, 0, n, cnx.Pending());
      ghost var m0 := arena.Memory();
      ghost var done: seq<Value> := [];
      Same(m0);
      Unprefixed(whole);
      assert Holds(0, []) by { Empty(); }
      var r, k := 0, 0;
      while r < n
        invariant r <= n && k == r * |types|
        invariant Valid() && Steady(false) && errorCode == 0 && Precedes(m0, arena.Memory())
        invariant Holds(k, done)
        invariant whole == Prepend(done, DecodeRows(types, updateable, r, n, cnx.Pending()))
      {
        ghost var m, s := arena.Memory(), cnx.Pending();
        RowFits(r, n, |types|);
        bad := ReceivePrefix(r);
        if bad {
          return;
        }
        ghost var s1 := cnx.Pending();
        RowStarts(types, r, k, done, DecodeCells(types, 0, s1, r));
        bad := ReceiveRow(types, r, k, done, DecodeCells(types, 0, s1, r));
        Arena.PrecedesTwice(m0, m, arena.Memory());
        if bad {
          return;
        }
        ghost var vs := DecodeCells(types, 0, s1, r).value;
        PrependTwice(done, vs, DecodeRows(types, updateable, r + 1, n, cnx.Pending()));
        done, r, k := done + vs, r + 1, k + |types|;
      }
      assert done + [] == done;
      bad := false;
    }

    lemma Empty()
      requires Valid() && elmt != null
      ensures Holds(0, [])
    {
    }

    static lemma RowFits(r: nat, n: nat, w: nat)
      requires r < n
      ensures r * w + w == (r + 1) * w <= w * n
    {
    }

    // ---------- Reply headers ----------

    method ReadStatus(h: string) returns (bad: bool)
      modifies `ok, `errorCode
      ensures match GetStatus(h)
              case Unreadable => bad && Fields() == old(Fields()).(ok := false)
              case Bad(code) => bad == (code != 0) && Fields() == old(Fields()).(ok := false, errorCode := code)
              case Good => !bad && Fields() == old(Fields()).(ok := true, errorCode := 0)
    {
      hide GetStatus;
      match GetStatus(h)
      case Unreadable =>
        ok, bad := false, true;
      case Bad(code) =>
        ok, errorCode, bad := false, code, code != 0;
      case Good =>
        ok, errorCode, bad := true, 0, false;
    }

    method ReadColumns(h: string) returns (bad: bool)
      requires '\0' !in h
      modifies `ok, `errorCode, `columns
      ensures match ReadColumnCount(old(Fields()), h)
              case Rejected(j) => bad && Fields() == j
              case Accepted(j) => !bad && Fields() == ReadAliases(ReadTypes(j, h), h)
    {
      hide Get, FieldLength, Tokens, AliasTokens, Atoi, WithTypes, WithNames, Blanks;
      var v := ReadField(h, "Column-Count", FIELD_BUFFER);
      if v.Some? {
        var nb := Atoi(v.value);
        if nb < 0 || nb > MAX_COLUMNS {
          ok, errorCode := false, -1;
          return true;
        }
        columns := Blanks(nb);
      }
      v := ReadField(h, "Column-Types", TYPES_BUFFER);
      if v.Some? {
        columns := TypesInto(columns, v.value);
      }
      var n := FieldLength(h, "Column-Aliases-Base64");
      v := ReadField(h, "Column-Aliases-Base64", (if n.Some? then n.value else TYPES_BUFFER) + 5);
      if v.Some? {
        columns := NamesInto(columns, v.value);
      }
      bad := false;
    }

    method ReadNumbers(h: string)
      requires '\0' !in h
      modifies `rowCount, `rowCountSent, `statementId, `updateable
      ensures Fields() == ReadCounts(old(Fields()), h)
    {
      hide Get, Atoi, Contains;
      var v := ReadField(h, "Row-Count", FIELD_BUFFER);
      if v.Some? {
        rowCount := AsCount(v.value);
      }
      v := ReadField(h, "Row-Count-Sent", FIELD_BUFFER);
      if v.Some? {
        rowCountSent := AsCount(v.value);
      }
      v := ReadField(h, "Statement-ID", FIELD_BUFFER);
      if v.Some? {
        statementId := Atoi(v.value);
      }
      v := ReadField(h, "Column-Updateability", FIELD_BUFFER);
      if v.Some? {
        updateable := Contains(v.value, "Y");
      }
    }

    method ReadKind(h: string) returns (bad: bool)
      requires '\0' !in h
      modifies `resultType
      ensures match ReadResultType(old(Fields()), h)
              case Rejected(j) => bad && Fields() == j
              case Accepted(j) => !bad && Fields() == j
    {
      hide Get, Contains, StripEnd, ResultTypeFromString;
      var v := ReadField(h, "Result-Type", FIELD_BUFFER);
      if v.Some? {
        var kind := StripEnd(v.value);
        if Contains(kind, " ") {
          return true;
        }
        resultType := ResultTypeFromString(kind);
      }
      bad := false;
    }

    /** The header parse, field by field. */
    method TraiteHeaderResponse(h: string) returns (bad: bool)
      requires '\0' !in h
      modifies `ok, `errorCode, `resultType, `statementId, `updateable, `rowCount, `rowCountSent, `columns, `elmt
      ensures elmt == null
      ensures match ParseHeader(old(Fields()), h)
              case Rejected(j) => bad && Fields() == j
              case Accepted(j) => !bad && Fields() == j
    {
      hide GetStatus, ReadColumnCount, ReadTypes, ReadAliases, ReadCounts, ReadResultType;
      elmt := null;
      bad := ReadStatus(h);
      if bad {
        return;
      }
      bad := ReadColumns(h);
      if bad {
        return;
      }
      ReadNumbers(h);
      bad := ReadKind(h);
    }

    /** Reads and parses a reply header; on failure the connection gets the result's code. */
    method ReceivCheck() returns (bad: bool, header: string)
      requires Valid() && cnx.errorCode in {0, -1}
      modifies this, cnx, cnx.rbuf, cnx.socket`incoming
      ensures Valid() && arena == old(arena) && unchanged(arena) && cnx.connected == old(cnx.connected)
      ensures firstRow == old(firstRow) && numRow == old(numRow) && pageSize == old(pageSize)
      ensures elmt == null || elmt == old(elmt)
      ensures match CheckReply(old(Fields()), old(cnx.Pending()))
              case Checked(j, h, rest) =>
                && !bad && Fields() == j && header == h && cnx.Pending() == rest && elmt == null
                && cnx.errorCode == j.errorCode
              case Refused(j, h, error) => bad && Fields() == j && header == h && cnx.errorCode == error
    {
      hide ReadHeader, ParseHeader, HeaderText, Shape, Arena.Linked;
      ghost var s := cnx.Pending();
      HeaderBounded(s);
      var block;
      bad, block := cnx.ReceiveHeader();
      if bad {
        cnx.failed := true;
        ok, errorCode := false, cnx.errorCode;
        return true, "";
      }
      header := HeaderText(block);
      TextEnds(block);
      bad := TraiteHeaderResponse(header);
      cnx.failed, cnx.errorCode := !ok, errorCode;
    }
  }
}
