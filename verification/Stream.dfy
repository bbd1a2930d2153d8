/** The socket and the connection's 64 KB read buffer. Whatever way the network cuts the
    bytes up, the readers here act on one flat sequence: the buffered bytes followed by
    those still to come. */
module Stream {
  import opened Bytes

  const RBUF_SIZE := 65536
  const MAX_CHUNK := 0x4000_0000
  const HEADER_START := 4096
  const MAX_HEADER := 0x10_0000
  const CRLFCRLF: seq<byte> := [13, 10, 13, 10]

  /** `a` with `b` written over it from position off on. */
  function Spliced(a: seq<byte>, off: nat, b: seq<byte>): (r: seq<byte>)
    requires off + |b| <= |a|
    ensures |r| == |a| && r[..off] == a[..off] && r[off..off + |b|] == b
  {
    a[..off] + b + a[off + |b|..]
  }

  lemma SplicedTwice(a: seq<byte>, off: nat, b: seq<byte>, c: seq<byte>)
    requires off + |b| + |c| <= |a|
    ensures Spliced(Spliced(a, off, b), off + |b|, c) == Spliced(a, off, b + c)
  {
    var x := Spliced(a, off, b);
    assert x[..off + |b|] == a[..off] + b;
    assert x[off + |b| + |c|..] == a[off + |b| + |c|..];
  }

  /** The two ends of the network. `incoming` holds the bytes the peer sends before the
      connection ends; `room` is how many bytes it still accepts before sending fails. */
  class Socket {
    var incoming: seq<byte>
    var outgoing: seq<byte>
    var room: nat

    constructor (incoming: seq<byte>, room: nat)
      ensures this.incoming == incoming && this.room == room && outgoing == []
    {
      this.incoming, this.room, outgoing := incoming, room, [];
    }

    /** Delivers any number of bytes between one and the asked maximum, or fails once the
        stream is over. */
    method Recv(buf: array<byte>, off: nat, max: nat) returns (r: int)
      requires 0 < max && off + max <= buf.Length
      modifies `incoming, buf
      ensures old(incoming) == [] ==> r <= 0 && incoming == [] && buf[..] == old(buf[..])
      ensures old(incoming) != [] ==>
                && 0 < r <= max && r <= |old(incoming)|
                && incoming == old(incoming)[r..]
                && buf[..] == Spliced(old(buf[..]), off, old(incoming)[..r])
    {
      if incoming == [] {
        r :| r == 0 || r == -1;
      } else {
        r :| 0 < r <= max && r <= |incoming|;
        var was, got := incoming, r;
        forall i | 0 <= i < got {
          buf[off + i] := was[i];
        }
        incoming := incoming[r..];
      }
    }

    /** Accepts any number of bytes between one and what is offered, or fails once the
        peer accepts no more. */
    method Send(msg: seq<byte>) returns (r: int)
      requires msg != []
      modifies `outgoing, `room
      ensures old(room) == 0 ==> r < 0 && outgoing == old(outgoing) && room == 0
      ensures old(room) > 0 ==>
                && 0 < r <= |msg| && r <= old(room)
                && outgoing == old(outgoing) + msg[..r]
                && room == old(room) - r
    {
      if room == 0 {
        r := -1;
      } else {
        r :| 0 < r <= room && r <= |msg|;
        outgoing, room := outgoing + msg[..r], room - r;
      }
    }
  }

  // ---------- Where a response header ends ----------

  predicate EndsAt(s: seq<byte>, n: nat) {
    4 <= n <= |s| && s[n - 4..n] == CRLFCRLF
  }

  /** The first end of a header at or after n. */
  function FirstEnd(s: seq<byte>, n: nat): Option<nat>
    decreases |s| - n
  {
    if n > |s| then None else if EndsAt(s, n) then Some(n) else FirstEnd(s, n + 1)
  }

  datatype HeaderRead = Complete(n: nat) | Closed | TooLong

  /** What reading a header from the flat stream s comes to. */
  function ReadHeader(s: seq<byte>): HeaderRead {
    match FirstEnd(s, 0)
    case Some(n) => if n < MAX_HEADER then Complete(n) else TooLong
    case None => if |s| < MAX_HEADER then Closed else TooLong
  }

  lemma {:induction false} FirstEndExact(s: seq<byte>, from: nat, n: nat)
    ensures FirstEnd(s, from) == Some(n) <==> from <= n && EndsAt(s, n) && forall m :: from <= m < n ==> !EndsAt(s, m)
    ensures FirstEnd(s, from) == None <==> forall m :: from <= m ==> !EndsAt(s, m)
    decreases |s| - from
  {
    if from <= |s| {
      FirstEndExact(s, from + 1, n);
    }
  }

  /** A header is read exactly when its first CRLFCRLF arrives within the first 2^20-1
      bytes, and it is then the shortest such prefix. */
  lemma HeaderExact(s: seq<byte>, n: nat)
    ensures ReadHeader(s) == Complete(n)
       <==> n < 0x10_0000 && EndsAt(s, n) && forall m :: 0 <= m < n ==> !EndsAt(s, m)
  {
    hide EndsAt;
    FirstEndExact(s, 0, n);
  }

  lemma HeaderBounded(s: seq<byte>)
    ensures ReadHeader(s).Complete? ==> ReadHeader(s).n <= |s| && EndsAt(s, ReadHeader(s).n)
  {
    if ReadHeader(s).Complete? {
      HeaderExact(s, ReadHeader(s).n);
    }
  }

  /** Bytes after the terminator make no difference. */
  lemma HeaderPrefix(h: seq<byte>, rest: seq<byte>)
    requires ReadHeader(h) == Complete(|h|)
    ensures ReadHeader(h + rest) == Complete(|h|)
  {
    HeaderExact(h, |h|);
    HeaderExact(h + rest, |h|);
    forall m | 4 <= m <= |h|
      ensures EndsAt(h + rest, m) == EndsAt(h, m)
    {
      assert (h + rest)[m - 4..m] == h[m - 4..m];
    }
  }

  // ---------- The connection ----------

  class Connection {
    const socket: Socket
    const rbuf: array<byte>
    var pos: nat
    var len: nat
    var connected: bool
    var failed: bool         // status == FOURD_ERROR
    var errorCode: int
    var updatedRow: int

    ghost predicate Valid()
      reads `pos, `len
    {
      pos <= len <= rbuf.Length == RBUF_SIZE
    }

    /** The flat stream: received but unread bytes, then those still to come. */
    ghost function Pending(): seq<byte>
      requires Valid()
      reads `pos, `len, rbuf, socket`incoming
    {
      rbuf[pos..len] + socket.incoming
    }

    constructor (socket: Socket)
      ensures Valid() && this.socket == socket && fresh(rbuf)
      ensures Pending() == socket.incoming
      ensures connected && !failed && errorCode == 0
    {
      this.socket := socket;
      rbuf := new byte[RBUF_SIZE];
      pos, len, connected, failed, errorCode, updatedRow := 0, 0, true, false, 0, 0;
    }

    method RbufFill() returns (r: int)
      requires Valid() && pos == len
      modifies `pos, `len, rbuf, socket`incoming
      ensures Valid() && Pending() == old(Pending())
      ensures old(Pending()) == [] ==> r == -1 && Pending() == []
      ensures old(Pending()) != [] ==> r > 0 && pos < len
    {
      pos, len := 0, 0;
      ghost var incoming := socket.incoming;
      r := socket.Recv(rbuf, 0, rbuf.Length);
      if r <= 0 {
        return -1;
      }
      len := r;
      assert rbuf[..][0..r] == incoming[..r];
    }

    /** Moves bytes from the read buffer to dst. */
    method TakeBuffered(dst: array<byte>, off: nat, take: nat)
      requires Valid() && dst != rbuf && take <= len - pos && off + take <= dst.Length
      modifies `pos, dst
      ensures Valid() && Pending() == old(Pending())[take..]
      ensures dst[..] == Spliced(old(dst[..]), off, old(Pending())[..take])
    {
      ghost var got := rbuf[pos..pos + take];
      assert got == Pending()[..take];
      forall i | 0 <= i < take {
        dst[off + i] := rbuf[pos + i];
      }
      assert dst[..] == Spliced(old(dst[..]), off, got);
      pos := pos + take;
      assert rbuf[pos..len] == old(rbuf[pos..len])[take..];
    }

    /** Receives straight into dst while the buffer is empty. */
    method RecvDirect(dst: array<byte>, off: nat, max: nat) returns (r: int)
      requires Valid() && pos == len && dst != rbuf && 0 < max && off + max <= dst.Length
      modifies socket`incoming, dst
      ensures Valid()
      ensures old(Pending()) == [] ==> r <= 0 && Pending() == [] && dst[..] == old(dst[..])
      ensures old(Pending()) != [] ==>
                && 0 < r <= max && r <= |old(Pending())|
                && Pending() == old(Pending())[r..]
                && dst[..] == Spliced(old(dst[..]), off, old(Pending())[..r])
    {
      assert rbuf[pos..len] == [];
      assert Pending() == socket.incoming;
      r := socket.Recv(dst, off, max);
      assert Pending() == socket.incoming;
    }

    /** One more piece extends the part of dst already written. */
    static lemma PieceAdded(was: seq<byte>, off: nat, all: seq<byte>, copied: nat, k: nat,
                            before: seq<byte>, after: seq<byte>)
      requires copied + k <= |all| && off + copied + k <= |was|
      requires before == Spliced(was, off, all[..copied])
      requires after == Spliced(before, off + copied, all[copied..][..k])
      ensures after == Spliced(was, off, all[..copied + k])
      ensures all[copied..][k..] == all[copied + k..]
    {
      SplicedTwice(was, off, all[..copied], all[copied..][..k]);
      assert all[..copied] + all[copied..][..k] == all[..copied + k];
    }

    /** One round of the loop below: -1 when the stream is over, 0 when the buffer was
        refilled, else the number of bytes moved to dst. Much is received straight from the
        socket when the buffer is empty. */
    method RecvPiece(dst: array<byte>, off: nat, remaining: nat) returns (r: int)
      requires Valid() && dst != rbuf && 0 < remaining && off + remaining <= dst.Length
      modifies `pos, `len, rbuf, socket`incoming, dst
      ensures Valid()
      ensures r < 0 ==> old(Pending()) == [] && Pending() == [] && dst[..] == old(dst[..])
      ensures r >= 0 ==>
                && r <= remaining && r <= |old(Pending())| && Pending() == old(Pending())[r..]
                && dst[..] == Spliced(old(dst[..]), off, old(Pending())[..r])
      ensures r == 0 ==> old(pos == len) && pos < len
    {
      hide Spliced, Pending;
      ghost var all, was := Pending(), dst[..];
      var avail := len - pos;
      if avail == 0 {
        if remaining >= rbuf.Length {
          r := RecvDirect(dst, off, if remaining > MAX_CHUNK then MAX_CHUNK else remaining);
          return if r <= 0 then -1 else r;
        }
        r := RbufFill();
        Nothing(was, off, all);
        return if r < 0 then -1 else 0;
      }
      Buffered();
      r := Min(avail, remaining);
      TakeBuffered(dst, off, r);
    }

    /** Reads exactly n bytes into dst. */
    method BufRecv(dst: array<byte>, off: nat, n: nat) returns (ok: bool)
      requires Valid() && dst != rbuf && off + n <= dst.Length
      modifies `pos, `len, rbuf, socket`incoming, dst
      ensures Valid()
      ensures ok <==> n <= |old(Pending())|
      ensures ok ==> Pending() == old(Pending())[n..]
      ensures !ok ==> Pending() == []
      ensures dst[..] == Spliced(old(dst[..]), off, old(Pending())[..Min(n, |old(Pending())|)])
    {
      hide Spliced, Pending;
      ghost var all, was := Pending(), dst[..];
      var copied := 0;
      Nothing(was, off, all);
      while copied < n
        invariant Valid() && copied <= n && copied <= |all|
        invariant Pending() == all[copied..]
        invariant dst[..] == Spliced(was, off, all[..copied])
        decreases n - copied, if pos == len then 1 else 0
      {
        ghost var before := dst[..];
        var r := RecvPiece(dst, off + copied, n - copied);
        if r < 0 {
          return false;
        }
        PieceAdded(was, off, all, copied, r, before, dst[..]);
        copied := copied + r;
      }
      return true;
    }

    static lemma Nothing(was: seq<byte>, off: nat, all: seq<byte>)
      requires off <= |was|
      ensures Spliced(was, off, all[..0]) == was && all[0..] == all
    {
    }

    lemma Buffered()
      requires Valid()
      ensures len - pos <= |Pending()|
    {
    }

    /** A read into a scratch variable that was zero before. */
    method RecvBytes(n: nat) returns (ok: bool, b: seq<byte>)
      requires Valid()
      modifies `pos, `len, rbuf, socket`incoming
      ensures Valid() && |b| == n
      ensures ok <==> n <= |old(Pending())|
      ensures ok ==> b == old(Pending())[..n] && Pending() == old(Pending())[n..]
      ensures !ok ==> b == old(Pending()) + seq(n - |old(Pending())|, i => 0) && Pending() == []
    {
      var scratch := new byte[n](i => 0);
      ok := BufRecv(scratch, 0, n);
      b := scratch[..];
    }

    /** The fields of a timestamp, one after the other. */
    method RecvStamp() returns (ok: bool, year: seq<byte>, month: byte, day: byte, milli: seq<byte>)
      requires Valid()
      modifies `pos, `len, rbuf, socket`incoming
      ensures Valid()
      ensures ok <==> 8 <= |old(Pending())|
      ensures ok ==>
                var s := old(Pending());
                && year == s[..2] && month == s[2] && day == s[3] && milli == s[4..8] && Pending() == s[8..]
    {
      hide Pending;
      ghost var s := Pending();
      var b;
      month, day, milli := 0, 0, [];
      ok, year := RecvBytes(2);
      if ok {
        ok, b := RecvBytes(1);
        month := b[0];
      }
      if ok {
        ok, b := RecvBytes(1);
        day := b[0];
      }
      if ok {
        ok, milli := RecvBytes(4);
      }
      Parts(s, 2, 3, 4);
    }

    /** The fields of a FLOAT before its digits. */
    method RecvFloatHead() returns (ok: bool, exp: seq<byte>, sign: byte, size: seq<byte>)
      requires Valid()
      modifies `pos, `len, rbuf, socket`incoming
      ensures Valid()
      ensures ok <==> 9 <= |old(Pending())|
      ensures ok ==>
                var s := old(Pending());
                && exp == s[..4] && sign == s[4] && size == s[5..9] && Pending() == s[9..]
    {
      hide Pending;
      ghost var s := Pending();
      var b;
      sign, size := 0, [];
      ok, exp := RecvBytes(4);
      if ok {
        ok, b := RecvBytes(1);
        sign := b[0];
      }
      if ok {
        ok, size := RecvBytes(4);
      }
      Parts(s, 4, 5, 5);
    }

    /** Dropping in steps. */
    static lemma Parts(s: seq<byte>, i: nat, j: nat, k: nat)
      requires i <= j <= k
      ensures j <= |s| ==> s[i..][j - i..] == s[j..]
      ensures k <= |s| ==> s[j..][k - j..] == s[k..]
      ensures k + 4 <= |s| ==> s[k..][..4] == s[k..k + 4] && s[k..][4..] == s[k + 4..]
    {
    }

    /** Records a read failure when there is no result to record it on. */
    method ReadFailed()
      modifies `failed, `errorCode
      ensures failed && errorCode == if old(errorCode) == 0 then -1 else old(errorCode)
    {
      if errorCode == 0 {
        errorCode := -1;
      }
      failed := true;
    }

    method TakeByte() returns (b: byte)
      requires Valid() && pos < len
      modifies `pos
      ensures Valid() && old(Pending()) != []
      ensures b == old(Pending())[0] && Pending() == old(Pending())[1..]
    {
      b, pos := rbuf[pos], pos + 1;
      assert rbuf[pos..len] == old(rbuf[pos..len])[1..];
    }

    /** realloc to twice the size. */
    static method Doubled(hdr: array<byte>, n: nat) returns (bigger: array<byte>)
      requires n <= hdr.Length
      ensures fresh(bigger) && bigger.Length == 2 * hdr.Length && bigger[..n] == hdr[..n]
    {
      bigger := new byte[2 * hdr.Length];
      forall i | 0 <= i < n {
        bigger[i] := hdr[i];
      }
    }

    /** The sizes the header block passes through. */
    static predicate HeaderSize(size: nat) {
      size in {4096, 8192, 16384, 32768, 65536, 131072, 262144, 524288, MAX_HEADER}
    }

    /** Reads up to and including the first CRLFCRLF, growing the header block by doubling;
        the bytes after it stay in the stream. */
    method ReceiveHeader() returns (bad: bool, header: seq<byte>)
      requires Valid()
      modifies `pos, `len, rbuf, socket`incoming, `failed, `errorCode
      ensures Valid()
      ensures bad <==> !ReadHeader(old(Pending())).Complete?
      ensures bad ==> errorCode != 0
      ensures bad && old(errorCode) in {0, -1} ==> errorCode == -1
      ensures !bad ==>
                var n := ReadHeader(old(Pending())).n;
                && n <= |old(Pending())|
                && header == old(Pending())[..n] && Pending() == old(Pending())[n..]
                && failed == old(failed) && errorCode == old(errorCode)
    {
      hide EndsAt, ReadHeader, Pending, HeaderSize;
      ghost var all := Pending();
      var n, hdr := 0, new byte[HEADER_START];
      assert all == all[0..];
      EndFacts(all, hdr[..0]);
      Sizes(hdr.Length);
      while true
        invariant Valid() && n < MAX_HEADER && n < hdr.Length && n <= |all|
        invariant fresh(hdr) && HeaderSize(hdr.Length)
        invariant hdr[..n] == all[..n] && Pending() == all[n..]
        invariant forall m :: 0 <= m <= n ==> !EndsAt(all, m)
        invariant failed == old(failed) && errorCode == old(errorCode)
        decreases |all| - n
      {
        if pos >= len {
          var r := RbufFill();
          if r < 0 {
            NoEnd(all);
            ReadFailed();
            return true, [];
          }
        }
        Sizes(hdr.Length);
        if n + 2 > hdr.Length {
          if hdr.Length >= MAX_HEADER {
            assert |Pending()| > 0 by { Buffered(); }
            LateEnd(all);
            errorCode := -1;
            return true, [];
          }
          hdr := Doubled(hdr, n);
        }
        StoreByte(all, hdr, n);
        n := n + 1;
        EndFacts(all, hdr[..n]);
        if n >= 4 && hdr[n - 4..n] == CRLFCRLF {
          break;
        }
      }
      HeaderExact(all, n);
      header := hdr[..n];
      hdr[n] := 0;
      bad := false;
    }

    static lemma Sizes(size: nat)
      ensures HeaderSize(HEADER_START)
      ensures HeaderSize(size) ==> HEADER_START <= size <= MAX_HEADER
      ensures HeaderSize(size) && size < MAX_HEADER ==> HeaderSize(2 * size)
    {
    }

    /** Moves the next byte of the stream to position n of the header block. */
    method StoreByte(ghost all: seq<byte>, hdr: array<byte>, n: nat)
      requires Valid() && pos < len && hdr != rbuf && n < hdr.Length && n <= |all|
      requires hdr[..n] == all[..n] && Pending() == all[n..]
      modifies `pos, hdr
      ensures Valid() && n < |all|
      ensures hdr[..n + 1] == all[..n + 1] && Pending() == all[n + 1..]
    {
      ghost var before := hdr[..n];
      var b := TakeByte();
      hdr[n] := b;
      assert hdr[..n + 1] == before + [b];
      assert all[..n + 1] == before + [b];
    }

    /** Testing the last four bytes read decides whether the header ends here. */
    static lemma EndFacts(all: seq<byte>, read: seq<byte>)
      requires |read| <= |all| && read == all[..|read|]
      ensures EndsAt(all, |read|) <==> |read| >= 4 && read[|read| - 4..] == CRLFCRLF
    {
      if |read| >= 4 {
        assert read[|read| - 4..] == all[|read| - 4..|read|];
      }
    }

    static lemma NoEnd(s: seq<byte>)
      requires |s| < MAX_HEADER && forall m :: 0 <= m <= |s| ==> !EndsAt(s, m)
      ensures ReadHeader(s) == Closed
    {
      FirstEndExact(s, 0, 0);
    }

    static lemma LateEnd(s: seq<byte>)
      requires |s| >= MAX_HEADER && forall m :: 0 <= m < MAX_HEADER ==> !EndsAt(s, m)
      ensures ReadHeader(s) == TooLong
    {
      if ReadHeader(s).Complete? {
        HeaderExact(s, ReadHeader(s).n);
      }
    }

    /** Sends all of msg in as many pieces as the network wants, or loses the connection. */
    method SendAll(msg: seq<byte>) returns (bad: bool)
      modifies socket`outgoing, socket`room, `errorCode, `connected
      ensures bad <==> |msg| > old(socket.room)
      ensures socket.outgoing == old(socket.outgoing) + msg[..Min(|msg|, old(socket.room))]
      ensures socket.room == old(socket.room) - Min(|msg|, old(socket.room))
      ensures bad ==> errorCode == -1 && !connected
      ensures !bad ==> errorCode == old(errorCode) && connected == old(connected)
    {
      var sent := 0;
      while sent < |msg|
        invariant sent <= |msg| && sent <= old(socket.room)
        invariant socket.outgoing == old(socket.outgoing) + msg[..sent]
        invariant socket.room == old(socket.room) - sent
        invariant errorCode == old(errorCode) && connected == old(connected)
      {
        var chunk := if |msg| - sent > MAX_CHUNK then MAX_CHUNK else |msg| - sent;
        var r := socket.Send(msg[sent..sent + chunk]);
        if r < 0 {
          errorCode, connected := -1, false;
          return true;
        }
        assert msg[..sent + r] == msg[..sent] + msg[sent..sent + chunk][..r];
        sent := sent + r;
      }
      return false;
    }
  }
}
