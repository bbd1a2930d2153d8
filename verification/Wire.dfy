/** The wire format of rows in literal bytes: what each kind of cell looks like and how many
    bytes it takes. */
module Wire {
  import opened Bytes
  import opened Codec

  // ---------- Little endian ----------

  function Two(low: nat, high: nat): nat {
    low + 256 * high
  }

  /** The lowest byte comes first. */
  lemma Unsigned(b: seq<byte>)
    ensures |b| == 2 ==> FromLe(b) == Two(b[0], b[1])
    ensures |b| == 4 ==> FromLe(b) == Two(b[0], b[1]) + 65536 * Two(b[2], b[3])
  {
    if |b| == 2 {
      assert b[1..][1..] == [];
    } else if |b| == 4 {
      assert b[1..][1..] == b[2..] && b[2..][1..] == b[3..] && b[3..][1..] == [];
    }
  }

  /** The highest bit is the sign. */
  lemma Signed(b: seq<byte>)
    ensures |b| == 2 ==> FromSignedLe(b) == Two(b[0], b[1]) - (if b[1] >= 128 then 65536 else 0)
    ensures |b| == 4 ==>
              FromSignedLe(b) == Two(b[0], b[1]) + 65536 * Two(b[2], b[3])
                                 - (if b[3] >= 128 then 4294967296 else 0)
  {
    Unsigned(b);
    Pow256Values();
    hide FromLe, Pow256;
  }

  // ---------- Cells ----------

  /** The widths of the fixed types, in bytes. */
  predicate Width(t: VkType, n: nat) {
    match t
    case VK_BOOLEAN | VK_BYTE | VK_WORD => n == 2
    case VK_LONG => n == 4
    case VK_LONG8 | VK_REAL | VK_DURATION => n == 8
    case _ => false
  }

  /** Status '1' and exactly as many bytes as the type is wide; fewer are a lost connection. */
  lemma FixedCell(t: VkType, raw: seq<byte>, rest: seq<byte>, r: nat, c: nat)
    ensures Width(t, |raw|) ==> DecodeCell(t, [49] + raw + rest, r, c) == Ok(Fixed(raw), rest)
    ensures (exists n :: Width(t, n) && |raw| < n) ==> DecodeCell(t, [49] + raw, r, c) == Parsed.Fail(Lost)
  {
    assert ([49] + raw + rest)[1..] == raw + rest && ([49] + raw)[1..] == raw;
  }

  /** The fixed types are those with a width. */
  lemma FixedTypes(t: VkType)
    ensures IsFixed(t) <==> exists n :: Width(t, n)
  {
    assert Width(VK_WORD, 2) && Width(VK_BYTE, 2) && Width(VK_BOOLEAN, 2) && Width(VK_LONG, 4);
    assert Width(VK_LONG8, 8) && Width(VK_REAL, 8) && Width(VK_DURATION, 8);
  }

  /** Status '0' alone is null. */
  lemma NullCell(t: VkType, rest: seq<byte>, r: nat, c: nat)
    ensures DecodeCell(t, [48] + rest, r, c) == Ok(Null, rest)
  {
    assert ([48] + rest)[1..] == rest;
  }

  /** Behind status '2' stands the error code; a zero is reported as -1. */
  lemma ErrorCell(t: VkType, code: int, rest: seq<byte>, r: nat, c: nat)
    requires Fits(code, 8)
    ensures DecodeCell(t, [50] + ToLe(code, 8) + rest, r, c)
         == Parsed.Fail(Malformed(ServerColumnError, r, c, if code == 0 then -1 else code))
    ensures DecodePrefix(true, [50] + ToLe(code, 8) + rest, r)
         == Parsed.Fail(Malformed(ServerRowError, r, 0, if code == 0 then -1 else code))
  {
    hide DecodeCell, DecodePrefix, ServerCode, ToLe;
    var s := [50] + ToLe(code, 8) + rest;
    assert s[0] == 50 && s[1..] == ToLe(code, 8) + rest;
    ErrorStatus(t, s, r, c);
    CodeRead(code, rest);
  }

  lemma ErrorStatus(t: VkType, s: seq<byte>, r: nat, c: nat)
    requires s != [] && s[0] == 50
    ensures DecodeCell(t, s, r, c) == Parsed.Fail(Malformed(ServerColumnError, r, c, ServerCode(s[1..])))
    ensures DecodePrefix(true, s, r) == Parsed.Fail(Malformed(ServerRowError, r, 0, ServerCode(s[1..])))
  {
    hide ServerCode, DecodePayload;
  }

  lemma CodeRead(code: int, rest: seq<byte>)
    requires Fits(code, 8)
    ensures ServerCode(ToLe(code, 8) + rest) == if code == 0 then -1 else code
  {
    hide ToLe, FromSignedLe;
    var b := ToLe(code, 8);
    assert (b + rest)[..8] + seq(0, i => 0) == b;
    SignedRoundTrip(code, 8);
  }

  /** When the stream ends within the code, the bytes that came make it, unsigned. */
  lemma CodeCut(t: VkType, part: seq<byte>, r: nat, c: nat)
    requires |part| < 8
    ensures var code := if FromLe(part) == 0 then -1 else FromLe(part);
            && DecodeCell(t, [50] + part, r, c) == Parsed.Fail(Malformed(ServerColumnError, r, c, code))
            && DecodePrefix(true, [50] + part, r) == Parsed.Fail(Malformed(ServerRowError, r, 0, code))
  {
    hide DecodeCell, DecodePrefix, ServerCode;
    var s := [50] + part;
    assert s[0] == 50 && s[1..] == part;
    ErrorStatus(t, s, r, c);
    CodePadded(part);
  }

  lemma CodePadded(part: seq<byte>)
    requires |part| < 8
    ensures ServerCode(part) == if FromLe(part) == 0 then -1 else FromLe(part)
  {
    hide FromLe, Pow256;
    var zeros: seq<byte> := seq(8 - |part|, i => 0);
    assert part[..|part|] == part;
    FromLeZeroPadded(part, zeros);
    ToLeFromLe(part);
    PowSteps(|part|, 7);
    Pow256Values();
    assert Pow256(8) == 256 * Pow256(7) by { PowNext(7); }
  }

  lemma PowNext(k: nat)
    ensures Pow256(k + 1) == 256 * Pow256(k)
  {
  }

  lemma {:induction false} PowSteps(a: nat, b: nat)
    requires a <= b
    ensures Pow256(a) <= Pow256(b)
    decreases b
  {
    if a < b {
      PowSteps(a, b - 1);
    }
  }

  /** Any other status is refused, and so are values of types without a format. */
  lemma BadCell(t: VkType, status: byte, rest: seq<byte>, r: nat, c: nat)
    ensures status !in {48, 49, 50} ==>
              && DecodeCell(t, [status] + rest, r, c) == Parsed.Fail(Malformed(BadColumnStatus, r, c, -1))
              && DecodePrefix(true, [status] + rest, r) == Parsed.Fail(Malformed(BadRowStatus, r, 0, -1))
    ensures t in {VK_TIME, VK_TEXT, VK_UNKNOW} ==>
              DecodeCell(t, [49] + rest, r, c) == Parsed.Fail(Malformed(BadColumnType, r, c, -1))
  {
    hide ServerCode;
  }

  /** Year, month, day, milliseconds of the day. */
  lemma StampCell(b: seq<byte>, rest: seq<byte>, r: nat, c: nat)
    requires |b| == 8
    ensures DecodeCell(VK_TIMESTAMP, [49] + b + rest, r, c)
         == Ok(Stamp(Two(b[0], b[1]) - (if b[1] >= 128 then 65536 else 0), b[2], b[3],
                     Two(b[4], b[5]) + 65536 * Two(b[6], b[7])), rest)
  {
    var s := b + rest;
    assert ([49] + b + rest)[1..] == s;
    assert s[..2] == [b[0], b[1]] && s[4..8] == [b[4], b[5], b[6], b[7]] && s[8..] == rest;
    Signed([b[0], b[1]]);
    Unsigned([b[4], b[5], b[6], b[7]]);
    hide FromLe, FromSignedLe;
  }

  /** A length is written in four bytes. */
  lemma Length(n: int, rest: seq<byte>)
    requires -0x8000_0000 <= n < 0x8000_0000
    ensures |ToLe(n, 4)| == 4 && FromSignedLe((ToLe(n, 4) + rest)[..4]) == n
    ensures (ToLe(n, 4) + rest)[4..] == rest
  {
    Pow256Values();
    SignedRoundTrip(n, 4);
    assert (ToLe(n, 4) + rest)[..4] == ToLe(n, 4);
  }

  /** Minus the number of UTF-16 units, at most 0x0FFFFFFF of them, then the units. */
  lemma StringCell(n: int, units: seq<byte>, rest: seq<byte>, r: nat, c: nat)
    requires -0x8000_0000 <= n < 0x8000_0000
    ensures var p := DecodeCell(VK_STRING, [49] + (ToLe(n, 4) + (units + rest)), r, c);
            && (-0x0FFF_FFFF <= n <= 0 && |units| == 2 * -n ==> p == Ok(Str(units), rest))
            && (n > 0 || n == -0x8000_0000 ==> p == Parsed.Fail(Malformed(BadStringLength, r, c, -1)))
            && (-0x8000_0000 < n < -0x0FFF_FFFF ==> p == Parsed.Fail(Malformed(StringTooLong, r, c, -1)))
  {
    hide FromSignedLe, ToLe, DecodePayload;
    var s := ToLe(n, 4) + (units + rest);
    assert ([49] + s)[1..] == s;
    Length(n, units + rest);
    if 0 <= |units| == 2 * -n {
      assert s[4..4 + |units|] == s[4..][..|units|] == units && s[4 + |units|..] == s[4..][|units|..] == rest;
    }
    VariableRead(s, r, c);
  }

  lemma VariableRead(s: seq<byte>, r: nat, c: nat)
    ensures DecodePayload(VK_STRING, s, r, c) == DecodeString(s, r, c)
    ensures DecodePayload(VK_FLOAT, s, r, c) == DecodeFloat(s, r, c)
    ensures DecodePayload(VK_BLOB, s, r, c) == DecodePayload(VK_IMAGE, s, r, c) == DecodeBlob(s, r, c)
  {
    hide DecodeString, DecodeFloat, DecodeBlob;
  }

  /** The number of bytes, at most 0x40000000, then the bytes; none of them is null. */
  lemma BlobCell(t: VkType, n: int, data: seq<byte>, rest: seq<byte>, r: nat, c: nat)
    requires t in {VK_BLOB, VK_IMAGE} && -0x8000_0000 <= n < 0x8000_0000
    ensures var p := DecodeCell(t, [49] + (ToLe(n, 4) + (data + rest)), r, c);
            && (0 < n == |data| && n <= 0x4000_0000 ==> p == Ok(Blob(data), rest))
            && (0 == n == |data| ==> p == Ok(Null, rest))
            && (n < 0 || n > 0x4000_0000 ==> p == Parsed.Fail(Malformed(BadBlobLength, r, c, -1)))
  {
    hide FromSignedLe, ToLe, DecodePayload;
    var s := ToLe(n, 4) + (data + rest);
    assert ([49] + s)[1..] == s;
    Length(n, data + rest);
    if 0 <= n == |data| {
      assert s[4..4 + n] == s[4..][..n] == data && s[4 + n..] == s[4..][n..] == rest;
    }
    VariableRead(s, r, c);
  }

  /** Exponent, sign, the number of bytes, at most 2^20, then the bytes. */
  lemma FloatCell(exp: int, sign: byte, n: int, digits: seq<byte>, rest: seq<byte>, r: nat, c: nat)
    requires -0x8000_0000 <= exp < 0x8000_0000 && -0x8000_0000 <= n < 0x8000_0000
    ensures var p := DecodeCell(VK_FLOAT, [49] + (ToLe(exp, 4) + ([sign] + (ToLe(n, 4) + (digits + rest)))), r, c);
            && (0 <= n == |digits| && n <= 0x10_0000 ==> p == Ok(Float(exp, sign, digits), rest))
            && (n < 0 || n > 0x10_0000 ==> p == Parsed.Fail(Malformed(BadFloatLength, r, c, -1)))
  {
    hide FromSignedLe, ToLe, DecodePayload;
    var s := ToLe(exp, 4) + ([sign] + (ToLe(n, 4) + (digits + rest)));
    assert ([49] + s)[1..] == s;
    FloatParts(exp, sign, n, digits + rest);
    if 0 <= n == |digits| {
      assert s[9..9 + n] == s[9..][..n] == digits && s[9 + n..] == s[9..][n..] == rest;
    }
    VariableRead(s, r, c);
  }

  lemma FloatParts(exp: int, sign: byte, n: int, more: seq<byte>)
    requires -0x8000_0000 <= exp < 0x8000_0000 && -0x8000_0000 <= n < 0x8000_0000
    ensures var s := ToLe(exp, 4) + ([sign] + (ToLe(n, 4) + more));
            && |s| >= 9 && FromSignedLe(s[..4]) == exp && s[4] == sign && FromSignedLe(s[5..9]) == n && s[9..] == more
  {
    hide FromSignedLe, ToLe;
    var tail := ToLe(n, 4) + more;
    var s := ToLe(exp, 4) + ([sign] + tail);
    Length(exp, [sign] + tail);
    Length(n, more);
    assert s[5..9] == tail[..4] && s[9..] == tail[4..];
  }

  // ---------- Rows ----------

  /** Rows of updateable results start with '0', or with '1' and a row id of four bytes. */
  lemma Prefixes(id: seq<byte>, rest: seq<byte>, r: nat)
    requires |id| == 4
    ensures DecodePrefix(false, rest, r) == Ok(Absent, rest)
    ensures DecodePrefix(true, [48] + rest, r) == Ok(NoId, rest)
    ensures DecodePrefix(true, [49] + id + rest, r) == Ok(WithId(id), rest)
  {
    assert ([48] + rest)[1..] == rest;
    assert ([49] + id + rest)[1..5] == id && ([49] + id + rest)[5..] == rest;
  }

  /** Without columns or without rows nothing is read, not even row prefixes. */
  lemma NothingRead(types: seq<VkType>, updateable: bool, n: nat, s: seq<byte>)
    requires types == [] || n == 0
    ensures DecodeBody(types, updateable, n, s) == Ok([], s)
  {
    hide DecodeRows;
  }

  /** A word of 5 and a null number. */
  lemma WordAndNull(rest: seq<byte>)
    ensures DecodeBody([VK_WORD, VK_LONG], false, 1, [49, 5, 0, 48] + rest) == Ok([Fixed([5, 0]), Null], rest)
  {
    hide DecodeCell;
    var s := [49, 5, 0, 48] + rest;
    var types := [VK_WORD, VK_LONG];
    assert s == [49] + [5, 0] + ([48] + rest);
    FixedCell(VK_WORD, [5, 0], [48] + rest, 0, 0);
    NullCell(VK_LONG, rest, 0, 1);
    TwoCells(VK_WORD, VK_LONG, s, Fixed([5, 0]), Null);
    assert DecodeRows(types, false, 1, 1, rest) == Ok([], rest);
    assert [Fixed([5, 0]), Null] + [] == [Fixed([5, 0]), Null];
  }

  lemma TwoCells(t: VkType, u: VkType, s: seq<byte>, v: Value, w: Value)
    requires DecodeCell(t, s, 0, 0).Ok? && DecodeCell(t, s, 0, 0).value == v
    requires var p := DecodeCell(u, DecodeCell(t, s, 0, 0).rest, 0, 1); p.Ok? && p.value == w
    ensures DecodeCells([t, u], 0, s, 0) == Ok([v, w], DecodeCell(u, DecodeCell(t, s, 0, 0).rest, 0, 1).rest)
  {
    hide DecodeCell;
    var s1 := DecodeCell(t, s, 0, 0).rest;
    var s2 := DecodeCell(u, s1, 0, 1).rest;
    assert DecodeCells([t, u], 2, s2, 0) == Ok([], s2);
    assert [w] + [] == [w];
    assert DecodeCells([t, u], 1, s1, 0) == Ok([w], s2);
    assert [v] + [w] == [v, w];
  }
}
