/** Base64 with the alphabet and padding of section 4 of RFC 4648. The decoder skips what
    is not in the alphabet, as section 6.8 of RFC 2045 allows. */
module Base64 {
  import opened Bytes

  const PAD := '='
  const NUL := '\0'
  const LENGTH_LIMIT := 0x4000_0000

  type sextet = x: int | 0 <= x < 64

  function TableChar(x: sextet): char {
    if x < 26 then 'A' + x as char
    else if x < 52 then 'a' + (x - 26) as char
    else if x < 62 then '0' + (x - 52) as char
    else if x == 62 then '+'
    else '/'
  }

  /** The reverse table: a sextet, -1 for a separator, -2 for anything else. */
  function Reverse(c: char): (x: int)
    ensures -2 <= x < 64
  {
    if 'A' <= c <= 'Z' then c as int - 'A' as int
    else if 'a' <= c <= 'z' then c as int - 'a' as int + 26
    else if '0' <= c <= '9' then c as int - '0' as int + 52
    else if c == '+' then 62
    else if c == '/' then 63
    else if c == '\t' || c == '\n' || c == '\r' || c == ' ' then -1
    else -2
  }

  lemma ReverseTable(x: sextet)
    ensures Reverse(TableChar(x)) == x && TableChar(x) != PAD && TableChar(x) != NUL
  {
  }

  // ---------- Encoding ----------

  /** The sextets of a byte string, most significant bits first, the last one filled with
      zero bits. */
  function SextetsOf(b: seq<byte>): seq<sextet> {
    if b == [] then []
    else if |b| == 1 then [b[0] / 4, b[0] % 4 * 16]
    else if |b| == 2 then [b[0] / 4, b[0] % 4 * 16 + b[1] / 16, b[1] % 16 * 4]
    else Group(b[0], b[1], b[2]) + SextetsOf(b[3..])
  }

  function Group(b0: byte, b1: byte, b2: byte): (q: seq<sextet>)
    ensures |q| == 4
  {
    [b0 / 4, b0 % 4 * 16 + b1 / 16, b1 % 16 * 4 + b2 / 64, b2 % 64]
  }

  function Chars(q: seq<sextet>): (s: string)
    ensures |s| == |q|
    ensures forall i :: 0 <= i < |q| ==> s[i] == TableChar(q[i])
  {
    if q == [] then [] else [TableChar(q[0])] + Chars(q[1..])
  }

  function Padding(n: nat): string {
    if n % 3 == 1 then [PAD, PAD] else if n % 3 == 2 then [PAD] else []
  }

  function Encode(b: seq<byte>): string {
    Chars(SextetsOf(b)) + Padding(|b|)
  }

  lemma {:induction false} SextetsLength(b: seq<byte>)
    ensures |SextetsOf(b)| == (4 * |b| + 2) / 3
  {
    hide Group;
    if |b| >= 3 {
      SextetsLength(b[3..]);
      LengthStep(|b| - 3);
    }
  }

  lemma LengthStep(n: nat)
    ensures (4 * (n + 3) + 2) / 3 == (4 * n + 2) / 3 + 4
  {
  }

  /** Four characters for every three bytes begun. */
  function OutSize(n: nat): nat {
    (n + 2) / 3 * 4
  }

  lemma EncodedLength(b: seq<byte>)
    ensures |SextetsOf(b)| == (4 * |b| + 2) / 3
    ensures |Encode(b)| == OutSize(|b|)
  {
    hide SextetsOf, Chars;
    SextetsLength(b);
    PaddedSize(|b|);
  }

  lemma {:induction false} PaddedSize(n: nat)
    ensures (4 * n + 2) / 3 + |Padding(n)| == OutSize(n)
  {
    if n >= 3 {
      PaddedSize(n - 3);
      LengthStep(n - 3);
    }
  }

  lemma CharsConcat(p: seq<sextet>, q: seq<sextet>)
    ensures Chars(p + q) == Chars(p) + Chars(q)
  {
    hide TableChar;
  }

  lemma EncodeStep(b: seq<byte>)
    requires |b| >= 3
    ensures Encode(b) == Chars(Group(b[0], b[1], b[2])) + Encode(b[3..])
  {
    var g, rest := Group(b[0], b[1], b[2]), b[3..];
    assert SextetsOf(b) == g + SextetsOf(rest);
    assert Padding(|b|) == Padding(|rest|);
    hide Group, Chars, SextetsOf, Padding;
    CharsConcat(g, SextetsOf(rest));
    Regroup(Chars(g), Chars(SextetsOf(rest)), Padding(|b|));
  }

  /** The tail of fewer than three bytes. */
  function Tail(b: seq<byte>): seq<char>
    requires |b| < 3
  {
    if b == [] then []
    else if |b| == 1 then [TableChar(b[0] / 4), TableChar(b[0] % 4 * 16), PAD, PAD]
    else [TableChar(b[0] / 4), TableChar(b[0] % 4 * 16 + b[1] / 16), TableChar(b[1] % 16 * 4), PAD]
  }

  lemma EncodeTail(b: seq<byte>)
    requires |b| < 3
    ensures Encode(b) == Tail(b)
  {
    hide TableChar, Chars;
    assert |b| > 0 ==> |SextetsOf(b)| == |b| + 1;
  }

  /** Encodes into a block of exactly the needed size; every write is inside it. Lengths
      whose encoding would not fit an int are refused. */
  method EncodeBuffer(str: seq<byte>) returns (result: array?<char>, length: nat)
    ensures result == null <==> (|str| + 2) / 3 >= 0x4000_0000
    ensures result == null ==> length == 0
    ensures result != null ==>
              && result.Length == |Encode(str)| + 1 && length == |Encode(str)|
              && result[..length] == Encode(str) && result[length] == NUL
  {
    hide Encode, OutSize;
    if (|str| + 2) / 3 >= LENGTH_LIMIT {
      return null, 0;
    }
    EncodedLength(str);
    result := new char[OutSize(|str|) + 1];
    length := EncodeInto(result, str);
  }

  method EncodeInto(result: array<char>, str: seq<byte>) returns (length: nat)
    requires result.Length == OutSize(|str|) + 1
    modifies result
    ensures length + 1 == result.Length && result[..length] == Encode(str) && result[length] == NUL
  {
    hide Encode, Group, Tail, Chars, OutSize;
    var p, current := 0, 0;
    ghost var all := Encode(str);
    assert str[0..] == str;
    assert result[..0] + all == all;
    while |str| - current > 2
      invariant 0 <= current <= |str| && 4 * current == 3 * p && p < result.Length
      invariant result[..p] + Encode(str[current..]) == all
    {
      Positions(|str|, current, p);
      EncodeGroup(result, p, str, current);
      p, current := p + 4, current + 3;
    }
    Positions(|str|, current, p);
    EncodeTail(str[current..]);
    length := Finish(result, p, str[current..]);
  }

  /** The next three bytes: what is written and still to be encoded makes the same whole. */
  method EncodeGroup(result: array<char>, p: nat, str: seq<byte>, current: nat)
    requires p + 4 <= result.Length && current + 3 <= |str|
    modifies result
    ensures result[..p + 4] + Encode(str[current + 3..]) == old(result[..p] + Encode(str[current..]))
  {
    hide Encode, Group, Chars;
    ghost var rest, done := str[current..], result[..p];
    EncodeStep(rest);
    assert rest[3..] == str[current + 3..];
    WriteQuad(result, p, str[current], str[current + 1], str[current + 2]);
    Regroup(done, Chars(Group(rest[0], rest[1], rest[2])), Encode(rest[3..]));
  }

  method Finish(result: array<char>, p: nat, rest: seq<byte>) returns (length: nat)
    requires |rest| < 3 && p + (if rest == [] then 0 else 4) + 1 == result.Length
    modifies result
    ensures length + 1 == result.Length && result[length] == NUL
    ensures result[..length] == old(result[..p]) + Tail(rest)
  {
    hide Tail;
    length := p;
    if rest != [] {
      WriteTail(result, p, rest);
      length := p + 4;
    } else {
      NoTail();
    }
    result[length] := NUL;
  }

  lemma Regroup(a: string, b: string, c: string)
    ensures a + (b + c) == a + b + c
  {
  }

  lemma NoTail()
    ensures Tail([]) == []
  {
  }

  /** Where the output stands after `current` input bytes, a multiple of three. */
  lemma Positions(n: nat, current: nat, p: nat)
    requires current <= n && 4 * current == 3 * p
    ensures n - current > 2 ==> p + 4 <= OutSize(n)
    ensures 0 < n - current <= 2 ==> p + 4 == OutSize(n)
    ensures n == current ==> p == OutSize(n)
  {
  }

  method WriteTail(result: array<char>, p: nat, rest: seq<byte>)
    requires 0 < |rest| < 3 && p + 4 <= result.Length
    modifies result
    ensures result[..p + 4] == old(result[..p]) + Tail(rest)
  {
    if |rest| > 1 {
      WriteFour(result, p, TableChar(rest[0] / 4), TableChar(rest[0] % 4 * 16 + rest[1] / 16),
                TableChar(rest[1] % 16 * 4), PAD);
    } else {
      WriteFour(result, p, TableChar(rest[0] / 4), TableChar(rest[0] % 4 * 16), PAD, PAD);
    }
  }

  method WriteQuad(result: array<char>, p: nat, b0: byte, b1: byte, b2: byte)
    requires p + 4 <= result.Length
    modifies result
    ensures result[..p + 4] == old(result[..p]) + Chars(Group(b0, b1, b2))
  {
    var q := Group(b0, b1, b2);
    hide Group, TableChar;
    WriteFour(result, p, TableChar(q[0]), TableChar(q[1]), TableChar(q[2]), TableChar(q[3]));
    assert Chars(q) == [TableChar(q[0]), TableChar(q[1]), TableChar(q[2]), TableChar(q[3])];
  }

  method WriteFour(result: array<char>, p: nat, a: char, b: char, c: char, d: char)
    requires p + 4 <= result.Length
    modifies result
    ensures result[..p + 4] == old(result[..p]) + [a, b, c, d]
  {
    result[p], result[p + 1], result[p + 2], result[p + 3] := a, b, c, d;
    assert result[..p] == old(result[..p]);
    assert result[..p + 4] == result[..p] + [result[p], result[p + 1], result[p + 2], result[p + 3]];
  }

  // ---------- Decoding ----------

  /** Bitwise or. */
  function Or(a: nat, b: nat): nat {
    if a == 0 then b
    else if b == 0 then a
    else (if a % 2 == 1 || b % 2 == 1 then 1 else 0) + 2 * Or(a / 2, b / 2)
  }

  lemma OrEven(x: nat, b: nat)
    ensures Or(2 * x, b) == b % 2 + 2 * Or(x, b / 2)
    ensures Or(x, 0) == x
  {
  }

  lemma OrLow2(y: nat, b: nat)
    requires b < 4
    ensures Or(4 * y, b) == 4 * y + b
  {
    hide Or;
    OrEven(2 * y, b);
    OrEven(y, b / 2);
  }

  lemma OrLow4(y: nat, b: nat)
    requires b < 16
    ensures Or(16 * y, b) == 16 * y + b
  {
    hide Or;
    OrEven(8 * y, b);
    OrEven(4 * y, b / 2);
    OrLow2(y, b / 4);
  }

  lemma OrLow6(y: nat, b: nat)
    requires b < 64
    ensures Or(64 * y, b) == 64 * y + b
  {
    hide Or;
    OrEven(32 * y, b);
    OrEven(16 * y, b / 2);
    OrLow4(y, b / 4);
  }

  /** What sextet number n (counting from 1) leaves at the top of the next byte. */
  function Partial(n: nat, x: sextet): byte {
    if n % 4 == 1 then x * 4 else if n % 4 == 2 then x % 16 * 16 else x % 4 * 64
  }

  /** What the sextet after n others adds at the bottom of the byte it completes. */
  function Bottom(n: nat, x: sextet): byte {
    if n % 4 == 1 then x / 16 else if n % 4 == 2 then x / 4 else x
  }

  function Joined(n: nat, last: sextet, x: sextet): (b: byte)
    requires n % 4 != 0
    ensures b == Partial(n, last) + Bottom(n, x)
  {
    OrLow2(last, x / 16);
    OrLow4(last % 16, x / 4);
    OrLow6(last % 4, x);
    Or(Partial(n, last), Bottom(n, x))
  }

  /** The bytes completed by a run of sextets; a last group of one to three sextets leaves
      its trailing bits unused. */
  function Assembled(q: seq<sextet>): seq<byte> {
    if q == [] then [] else
      var n := |q| - 1;
      if n % 4 == 0 then Assembled(q[..n]) else Assembled(q[..n]) + [Joined(n, q[n - 1], q[n])]
  }

  lemma {:induction false} AssembledLength(q: seq<sextet>)
    ensures |Assembled(q)| == 3 * |q| / 4
  {
    hide Joined;
    if q != [] {
      AssembledLength(q[..|q| - 1]);
      Places(|q| - 1);
    }
  }

  datatype Scan = Rejected | Scan(sextets: seq<sextet>, padded: bool)

  /** What the decoder collects from the C string s: sextets up to the first pad or NUL.
      Strict mode skips separators only and rejects other foreign characters. */
  function Scanned(s: string, strict: bool): Scan {
    if s == "" || s[0] == NUL then Scan([], false)
    else if s[0] == PAD then Scan([], true)
    else
      var x := Reverse(s[0]);
      if (!strict && x < 0) || x == -1 then Scanned(s[1..], strict)
      else if x == -2 then Rejected
      else match Scanned(s[1..], strict)
           case Rejected => Rejected
           case Scan(q, padded) => Scan([x] + q, padded)
  }

  /** None when a foreign character is rejected or the pad comes after a lone sextet. */
  function Decode(s: string, strict: bool): Option<seq<byte>> {
    match Scanned(s, strict)
    case Rejected => None
    case Scan(q, padded) => if padded && |q| % 4 == 1 then None else Some(Assembled(q))
  }

  /** r holds the bytes assembled from q, and the byte partly built by its last sextet. */
  ghost predicate Built(r: seq<byte>, q: seq<sextet>) {
    var j := 3 * |q| / 4;
    && j < |r| && r[..j] == Assembled(q)
    && (|q| % 4 != 0 ==> r[j] == Partial(|q|, q[|q| - 1]))
  }

  /** The scan as it was before the sextets q were taken off. */
  function After(q: seq<sextet>, scan: Scan): Scan {
    match scan
    case Rejected => Rejected
    case Scan(p, padded) => Scan(q + p, padded)
  }

  lemma AfterTwice(p: seq<sextet>, q: seq<sextet>, scan: Scan)
    ensures After(p, After(q, scan)) == After(p + q, scan)
  {
    if scan.Scan? {
      assert p + (q + scan.sextets) == p + q + scan.sextets;
    }
  }

  /** Stores one more sextet, as the four-way switch of the loop does. */
  method Store(result: array<byte>, ghost q: seq<sextet>, i: nat, j: nat, x: sextet) returns (j': nat)
    requires i == |q| && j == 3 * i / 4 && i + 1 < result.Length && Built(result[..], q)
    modifies result
    ensures j' == 3 * (i + 1) / 4 && Built(result[..], q + [x])
  {
    hide Assembled, Or, Partial, Bottom, Joined;
    Places(i);
    Switch(i, x);
    Switch(i + 1, x);
    j' := j;
    if i % 4 == 0 {
      ghost var was := result[..j];
      result[j'] := x * 4;
      assert result[..j] == was;
      AssembledStep(q, x);
    } else {
      Combine(result, q, j, if i % 4 == 1 then x / 16 else if i % 4 == 2 then x / 4 else x, x);
      j' := j' + 1;
      ghost var was := result[..j'];
      if i % 4 == 1 {
        result[j'] := x % 16 * 16;
      } else if i % 4 == 2 {
        result[j'] := x % 4 * 64;
      }
      assert result[..j'] == was;
    }
  }

  /** Completes the byte at j. */
  method Combine(result: array<byte>, ghost q: seq<sextet>, j: nat, low: byte, ghost x: sextet)
    requires |q| % 4 != 0 && j == 3 * |q| / 4 && low == Bottom(|q|, x) && Built(result[..], q)
    modifies result
    ensures result[..j + 1] == Assembled(q + [x])
  {
    ghost var i, was, b := |q|, result[..j], result[j];
    assert Joined(i, q[i - 1], x) == Or(b, low);
    hide Assembled, Or, Partial, Bottom, Joined;
    AssembledStep(q, x);
    result[j] := Or(result[j], low);
    assert result[..j + 1] == was + [result[j]];
  }

  /** Where sextet number i + 1 goes. */
  lemma Places(i: nat)
    ensures 3 * (i + 1) / 4 == 3 * i / 4 + (if i % 4 == 0 then 0 else 1) && 3 * (i + 1) / 4 <= i + 1
    ensures (i + 1) % 4 == if i % 4 == 3 then 0 else i % 4 + 1
  {
    var m, r := i / 4, i % 4;
    assert i == 4 * m + r;
    Quarters(3 * m, 3 * r);
    Quarters(3 * m, 3 * r + 3);
  }

  lemma Quarters(q: nat, r: nat)
    ensures (4 * q + r) / 4 == q + r / 4
  {
  }

  lemma Switch(i: nat, x: sextet)
    ensures Bottom(i, x) == if i % 4 == 1 then x / 16 else if i % 4 == 2 then x / 4 else x
    ensures Partial(i, x) == if i % 4 == 1 then x * 4 else if i % 4 == 2 then x % 16 * 16 else x % 4 * 64
  {
  }

  lemma {:induction false} AssembledStep(q: seq<sextet>, x: sextet)
    ensures Assembled(q + [x]) ==
            if |q| % 4 == 0 then Assembled(q) else Assembled(q) + [Joined(|q|, q[|q| - 1], x)]
  {
    hide Joined;
    assert (q + [x])[..|q|] == q;
  }

  /** The decoder's loop; every write is inside the length + 1 bytes allocated. */
  method DecodeBuffer(str: string, strict: bool) returns (result: array?<byte>, length: nat)
    ensures Decode(str, strict) == None ==> result == null
    ensures Decode(str, strict).Some? ==>
              && result != null && result.Length == |str| + 1
              && length < result.Length && result[..length] == Decode(str, strict).value && result[length] == 0
  {
    hide Reverse, Assembled, Partial;
    result, length := new byte[|str| + 1], 0;
    var i, j, current, padded := 0, 0, 0, false;
    ghost var q: seq<sextet> := [];
    ghost var whole := Scanned(str, strict);
    assert str[0..] == str;
    assert Built(result[..], q) by { assert Assembled([]) == [] by { NothingAssembled(); } }
    assert whole == After(q, whole) by { Unchanged(whole); }
    while current < |str| && str[current] != NUL
      invariant current <= |str| && i == |q| <= current && j == 3 * i / 4
      invariant Built(result[..], q)
      invariant whole == After(q, Scanned(str[current..], strict))
    {
      var c := str[current];
      ghost var rest := Scanned(str[current + 1..], strict);
      assert str[current..][1..] == str[current + 1..];
      if c == PAD {
        padded := true;
        break;
      }
      var x := Reverse(c);
      current := current + 1;
      if (!strict && x < 0) || x == -1 {
        continue;
      } else if x == -2 {
        return null, 0;
      }
      AfterTwice(q, [x], rest);
      j := Store(result, q, i, j, x);
      q, i := q + [x], i + 1;
    }
    assert whole == Scan(q, padded) by { assert q + [] == q; }
    if padded && i % 4 == 1 {
      return null, 0;
    }
    MopUp(result, i, j, padded);
    length := j;
    assert result[..j] == Assembled(q);
  }

  /** The byte begun by a last group cut short, and the end of the text, become NUL. */
  method MopUp(result: array<byte>, i: nat, j: nat, padded: bool)
    requires j == 3 * i / 4 && i < result.Length && !(padded && i % 4 == 1)
    modifies result
    ensures result[..j] == old(result[..j]) && result[j] == 0
  {
    if padded {
      var k := j;
      if i % 4 == 2 {
        k := k + 1;
      }
      if i % 4 >= 2 {
        result[k] := 0;
      }
    }
    result[j] := 0;
  }

  lemma NothingAssembled()
    ensures Assembled([]) == []
  {
  }

  lemma Unchanged(scan: Scan)
    ensures After([], scan) == scan
  {
    if scan.Scan? {
      assert [] + scan.sextets == scan.sextets;
    }
  }

  // ---------- Round trip ----------

  lemma {:induction false} ScannedChars(q: seq<sextet>, rest: string, strict: bool)
    ensures Scanned(Chars(q) + rest, strict) == After(q, Scanned(rest, strict))
  {
    hide Scanned, After, TableChar;
    if q == [] {
      assert Chars(q) + rest == rest;
      Unchanged(Scanned(rest, strict));
    } else {
      var tail := q[1..];
      assert Chars(q) + rest == [TableChar(q[0])] + (Chars(tail) + rest) && q == [q[0]] + tail;
      ScannedOne(q[0], Chars(tail) + rest, strict);
      ScannedChars(tail, rest, strict);
      AfterTwice([q[0]], tail, Scanned(rest, strict));
    }
  }

  lemma ScannedOne(x: sextet, rest: string, strict: bool)
    ensures Scanned([TableChar(x)] + rest, strict) == After([x], Scanned(rest, strict))
  {
    hide TableChar, Reverse;
    ReverseTable(x);
    assert ([TableChar(x)] + rest)[1..] == rest;
  }

  /** A full group of four in front of a run of sextets. */
  lemma {:induction false} AssembledFront(g: seq<sextet>, q: seq<sextet>)
    requires |g| == 4
    ensures Assembled(g + q) == Assembled(g) + Assembled(q)
  {
    hide Joined, Assembled;
    if q == [] {
      assert g + q == g;
      NothingAssembled();
    } else {
      var n := |q| - 1;
      AssembledFront(g, q[..n]);
      assert g + q == g + q[..n] + [q[n]];
      assert q == q[..n] + [q[n]];
      AssembledStep(g + q[..n], q[n]);
      AssembledStep(q[..n], q[n]);
      if n % 4 != 0 {
        assert (g + q[..n])[4 + n - 1] == q[n - 1];
        JoinedPeriodic(n, q[n - 1], q[n]);
      }
    }
  }

  lemma JoinedPeriodic(n: nat, last: sextet, x: sextet)
    requires n % 4 != 0
    ensures Joined(n + 4, last, x) == Joined(n, last, x)
  {
  }

  lemma AssembledFour(a: sextet, b: sextet, c: sextet, d: sextet)
    ensures Assembled([a]) == []
    ensures Assembled([a, b]) == [a * 4 + b / 16]
    ensures Assembled([a, b, c]) == [a * 4 + b / 16, b % 16 * 16 + c / 4]
    ensures Assembled([a, b, c, d]) == [a * 4 + b / 16, b % 16 * 16 + c / 4, c % 4 * 64 + d]
  {
    NothingAssembled();
    hide Assembled, Or;
    assert [] + [a] == [a] && [a] + [b] == [a, b] && [a, b] + [c] == [a, b, c] && [a, b, c] + [d] == [a, b, c, d];
    AssembledStep([], a);
    AssembledStep([a], b);
    AssembledStep([a, b], c);
    AssembledStep([a, b, c], d);
  }

  lemma GroupBack(b0: byte, b1: byte, b2: byte)
    ensures Assembled(Group(b0, b1, b2)) == [b0, b1, b2]
  {
    hide Assembled;
    AssembledFour(b0 / 4, b0 % 4 * 16 + b1 / 16, b1 % 16 * 4 + b2 / 64, b2 % 64);
  }

  lemma {:induction false} AssembledSextets(b: seq<byte>)
    ensures Assembled(SextetsOf(b)) == b
  {
    hide Assembled;
    if b == [] {
      NothingAssembled();
    } else if |b| == 1 {
      AssembledFour(b[0] / 4, b[0] % 4 * 16, 0, 0);
    } else if |b| == 2 {
      AssembledFour(b[0] / 4, b[0] % 4 * 16 + b[1] / 16, b[1] % 16 * 4, 0);
    } else {
      hide Group;
      GroupBack(b[0], b[1], b[2]);
      AssembledFront(Group(b[0], b[1], b[2]), SextetsOf(b[3..]));
      AssembledSextets(b[3..]);
      assert b == [b[0], b[1], b[2]] + b[3..];
    }
  }

  /** Decoding undoes encoding, with or without the padding, in both modes. */
  lemma RoundTrip(b: seq<byte>, strict: bool)
    ensures Decode(Encode(b), strict) == Some(b)
    ensures Decode(Chars(SextetsOf(b)), strict) == Some(b)
  {
    hide Assembled, SextetsOf, Chars;
    var q := SextetsOf(b);
    EncodedLength(b);
    AssembledSextets(b);
    ScannedChars(q, Padding(|b|), strict);
    ScannedChars(q, "", strict);
    assert Chars(q) + "" == Chars(q);
    assert After(q, Scan([], false)) == Scan(q, false) && After(q, Scan([], true)) == Scan(q, true) by {
      assert q + [] == q;
    }
    assert (4 * |b| + 2) / 3 % 4 != 1;
  }

  /** Characters outside the alphabet, other than the pad and NUL. */
  predicate Foreign(s: string) {
    forall i :: 0 <= i < |s| ==> Reverse(s[i]) < 0 && s[i] != PAD && s[i] != NUL
  }

  lemma {:induction false} ForeignSkipped(junk: string, b: string)
    requires Foreign(junk)
    ensures Scanned(junk + b, false) == Scanned(b, false)
  {
    hide Reverse;
    if junk == "" {
      assert junk + b == b;
    } else {
      assert (junk + b)[1..] == junk[1..] + b;
      ForeignSkipped(junk[1..], b);
    }
  }

  lemma {:induction false} ScannedInserted(a: string, junk: string, b: string)
    requires Foreign(junk)
    ensures Scanned(a + junk + b, false) == Scanned(a + b, false)
  {
    hide Reverse, Foreign;
    if a == "" {
      assert a + junk + b == junk + b && a + b == b;
      ForeignSkipped(junk, b);
    } else {
      assert (a + junk + b)[1..] == a[1..] + junk + b;
      assert (a + b)[1..] == a[1..] + b;
      ScannedInserted(a[1..], junk, b);
    }
  }

  /** The lenient decoder does not see foreign characters, wherever they are put. */
  lemma Lenient(a: string, junk: string, b: string)
    requires Foreign(junk)
    ensures Decode(a + junk + b, false) == Decode(a + b, false)
  {
    ScannedInserted(a, junk, b);
  }

  // ---------- In literal characters ----------

  /** The alphabet of Table 1 of RFC 4648, one line of it after the other. */
  lemma Alphabet(x: sextet)
    ensures x < 16 ==> TableChar(x) == "ABCDEFGHIJKLMNOP"[x]
    ensures 16 <= x < 32 ==> TableChar(x) == "QRSTUVWXYZabcdef"[x - 16]
    ensures 32 <= x < 48 ==> TableChar(x) == "ghijklmnopqrstuv"[x - 32]
    ensures 48 <= x ==> TableChar(x) == "wxyz0123456789+/"[x - 48]
  {
  }

  /** Test vectors of section 10 of RFC 4648. */
  lemma Vectors()
    ensures Encode([102]) == "Zg==" && Encode([102, 111]) == "Zm8=" && Encode([102, 111, 111]) == "Zm9v"
  {
    hide Encode, Tail, TableChar;
    EncodeTail([102]);
    EncodeTail([102, 111]);
    TailVectors();
    FullVector();
  }

  lemma TailVectors()
    ensures Tail([102]) == "Zg==" && Tail([102, 111]) == "Zm8="
  {
  }

  lemma FullVector()
    ensures Encode([102, 111, 111]) == "Zm9v"
  {
    hide Encode, Chars;
    EncodeStep([102, 111, 111]);
    assert [102, 111, 111][3..] == [];
    EncodeTail([]);
    assert Group(102, 111, 111) == [25, 38, 61, 47];
    hide Group;
    var t := Chars([25, 38, 61, 47]);
    assert t == [TableChar(25), TableChar(38), TableChar(61), TableChar(47)];
  }

  /** A character that is neither in the alphabet nor a separator. */
  predicate Invalid(c: char) {
    !('A' <= c <= 'Z' || 'a' <= c <= 'z' || '0' <= c <= '9') && c !in "+/=\0\t\n\r "
  }

  /** Strict decoding fails exactly on a foreign character in front of the first pad or NUL, or
      with a pad behind a lone sextet; lenient decoding on the latter only. */
  lemma {:induction false} RejectedIff(s: string, strict: bool)
    ensures Scanned(s, strict).Rejected?
       <==> strict && exists i :: 0 <= i < |s| && Invalid(s[i]) && forall j :: 0 <= j < i ==> s[j] !in "=\0"
  {
    if s != "" && s[0] != NUL && s[0] != PAD {
      RejectedIff(s[1..], strict);
      InvalidReverse(s[0]);
      hide Reverse, Invalid;
      if Scanned(s[1..], strict).Rejected? {
        var i :| 0 <= i < |s| - 1 && Invalid(s[1..][i]) && forall j :: 0 <= j < i ==> s[1..][j] !in "=\0";
        assert Invalid(s[i + 1]);
        assert forall j :: 0 < j < i + 1 ==> s[j] == s[1..][j - 1];
      }
      if i :| 0 < i < |s| && Invalid(s[i]) && forall j :: 0 <= j < i ==> s[j] !in "=\0" {
        assert Invalid(s[1..][i - 1]);
        assert forall j :: 0 <= j < i - 1 ==> s[1..][j] == s[j + 1];
      }
    }
  }

  /** Where strict decoding succeeds it agrees with lenient decoding. */
  lemma {:induction false} StrictAgrees(s: string)
    ensures Decode(s, true).Some? ==> Decode(s, true) == Decode(s, false)
    ensures Scanned(s, true).Scan? ==> Scanned(s, true) == Scanned(s, false)
  {
    hide Assembled, Reverse;
    if s != "" {
      StrictAgrees(s[1..]);
    }
  }

  lemma InvalidReverse(c: char)
    requires c !in "=\0"
    ensures Invalid(c) <==> Reverse(c) == -2
  {
  }

  /** A pad behind a lone sextet is refused, whatever complete groups stand before it; the end of
      the text is not. */
  lemma LoneSextet(q: seq<sextet>, rest: string, strict: bool)
    ensures Decode(Chars(q) + "=" + rest, strict) == None <==> |q| % 4 == 1
    ensures Decode(Chars(q), strict).Some?
  {
    hide Assembled, Chars, Reverse, Scanned;
    var t := "=" + rest;
    Regroup(Chars(q), "=", rest);
    ScannedChars(q, t, strict);
    PadEnds(t, strict);
    ScannedChars(q, "", strict);
    NothingScanned(strict);
    assert q + [] == q && Chars(q) + "" == Chars(q);
    assert Scanned(Chars(q) + t, strict) == Scan(q, true);
  }

  lemma NothingScanned(strict: bool)
    ensures Scanned("", strict) == Scan([], false)
  {
  }

  lemma PadEnds(t: string, strict: bool)
    requires t != "" && t[0] == '='
    ensures Scanned(t, strict) == Scan([], true)
  {
  }
}
