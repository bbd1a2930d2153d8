/** The C string functions the header parser rests on: strstr, strtok, atoi, %d. */
module Text {
  import opened Bytes

  /** The characters of a byte block. */
  function Chars(b: seq<byte>): (s: string)
    ensures |s| == |b| && forall i :: 0 <= i < |b| ==> s[i] == b[i] as char
  {
    seq(|b|, i requires 0 <= i < |b| => b[i] as char)
  }

  predicate Narrow(s: string) {
    forall i :: 0 <= i < |s| ==> s[i] < 256 as char
  }

  /** The bytes of a text of single-byte characters. */
  function Raw(s: string): (b: seq<byte>)
    requires Narrow(s)
    ensures |b| == |s| && forall i :: 0 <= i < |s| ==> b[i] == s[i] as int
    ensures Chars(b) == s
  {
    seq(|s|, i requires 0 <= i < |s| => s[i] as int)
  }

  /** A C string ends at its first NUL. */
  function CStr(s: string): (r: string)
    ensures '\0' !in s ==> r == s
  {
    if s == "" || s[0] == '\0' then "" else [s[0]] + CStr(s[1..])
  }

  lemma {:induction false} CStrEnds(s: string)
    ensures var n := |CStr(s)|;
            n <= |s| && CStr(s) == s[..n] && '\0' !in CStr(s) && (n < |s| ==> s[n] == '\0')
  {
    if s != "" && s[0] != '\0' {
      CStrEnds(s[1..]);
    }
  }

  /** What stands behind a NUL does not matter. */
  lemma {:induction false} CStrCut(s: string, n: nat)
    requires n < |s| && s[n] == '\0'
    ensures CStr(s) == CStr(s[..n])
  {
    if n > 0 && s[0] != '\0' {
      assert s[..n][1..] == s[1..][..n - 1];
      CStrCut(s[1..], n - 1);
    }
  }

  // ---------- strstr ----------

  predicate Occurs(h: string, s: string, p: nat) {
    p + |s| <= |h| && h[p..p + |s|] == s
  }

  /** The first occurrence of s in h at or after `from`. */
  function Find(h: string, s: string, from: nat): Option<nat>
    decreases |h| - from
  {
    if from + |s| > |h| then None
    else if Occurs(h, s, from) then Some(from)
    else Find(h, s, from + 1)
  }

  predicate Contains(h: string, s: string) {
    Find(h, s, 0).Some?
  }

  lemma {:induction false} FindExact(h: string, s: string, from: nat)
    ensures Find(h, s, from).Some? ==> Find(h, s, from).value >= from && Occurs(h, s, Find(h, s, from).value)
    ensures forall p :: from <= p && Occurs(h, s, p) ==> Find(h, s, from).Some? && Find(h, s, from).value <= p
    decreases |h| - from
  {
    if from + |s| <= |h| && !Occurs(h, s, from) {
      FindExact(h, s, from + 1);
    }
  }

  lemma FindIs(h: string, s: string, from: nat, p: nat)
    requires from <= p && Occurs(h, s, p) && forall q :: from <= q < p ==> !Occurs(h, s, q)
    ensures Find(h, s, from) == Some(p)
  {
    hide Occurs;
    FindExact(h, s, from);
  }

  lemma FindNone(h: string, s: string, from: nat)
    requires forall q :: from <= q ==> !Occurs(h, s, q)
    ensures Find(h, s, from) == None
  {
    hide Occurs;
    FindExact(h, s, from);
  }

  lemma OccursChar(h: string, s: string, p: nat, i: nat)
    ensures Occurs(h, s, p) && p <= i < p + |s| ==> i < |h| && h[i] in s
  {
    if Occurs(h, s, p) && p <= i < p + |s| {
      assert h[p..p + |s|][i - p] == h[i];
    }
  }

  /** A character missing from s cannot be inside an occurrence of s. */
  lemma OccursAround(a: string, c: char, b: string, s: string, p: nat)
    requires c !in s && Occurs(a + [c] + b, s, p)
    ensures Occurs(a, s, p) || (p > |a| && Occurs(b, s, p - |a| - 1))
  {
    var h := a + [c] + b;
    if p + |s| <= |a| {
      assert h[p..p + |s|] == a[p..p + |s|];
    } else if p > |a| {
      assert h[p..p + |s|] == b[p - |a| - 1..p - |a| - 1 + |s|];
    }
    OccursChar(h, s, p, |a|);
  }

  // ---------- strtok ----------

  /** The text up to the first separator. */
  function Head(s: string, sep: char): (r: string)
    ensures |r| <= |s|
    ensures s != "" && s[0] != sep ==> |r| > 0
  {
    if s == "" || s[0] == sep then "" else [s[0]] + Head(s[1..], sep)
  }

  /** The non-empty pieces of s between separators. */
  function Tokens(s: string, sep: char): seq<string> {
    if s == "" then []
    else if s[0] == sep then Tokens(s[1..], sep)
    else [Head(s, sep)] + Tokens(s[|Head(s, sep)|..], sep)
  }

  lemma {:induction false} HeadOf(u: string, sep: char, w: string)
    requires sep !in u && (w == "" || w[0] == sep)
    ensures Head(u + w, sep) == u
  {
    if u == "" {
      assert u + w == w;
    } else {
      assert (u + w)[1..] == u[1..] + w;
      HeadOf(u[1..], sep, w);
    }
  }

  lemma TokensStep(u: string, sep: char, w: string)
    requires u != "" && sep !in u
    ensures Tokens(u + [sep] + w, sep) == [u] + Tokens(w, sep)
    ensures Tokens(u, sep) == [u]
  {
    var s := u + [sep] + w;
    assert s == u + ([sep] + w);
    HeadOf(u, sep, [sep] + w);
    assert s[|u|..] == [sep] + w;
    assert Tokens([sep] + w, sep) == Tokens(w, sep);
    assert u + "" == u;
    HeadOf(u, sep, "");
    assert u[|u|..] == "";
  }

  function Count(s: string, c: char): nat {
    if s == "" then 0 else (if s[0] == c then 1 else 0) + Count(s[1..], c)
  }

  lemma {:induction false} CountConcat(a: string, b: string, c: char)
    ensures Count(a + b, c) == Count(a, c) + Count(b, c)
  {
    if a == "" {
      assert a + b == b;
    } else {
      assert (a + b)[1..] == a[1..] + b;
      CountConcat(a[1..], b, c);
    }
  }

  lemma {:induction false} CountAbsent(s: string, c: char)
    requires c !in s
    ensures Count(s, c) == 0
  {
    if s != "" {
      CountAbsent(s[1..], c);
    }
  }

  lemma {:induction false} HeadSplits(s: string, sep: char)
    ensures Count(s, sep) == Count(s[|Head(s, sep)|..], sep)
    ensures |Head(s, sep)| < |s| ==> s[|Head(s, sep)|] == sep
  {
    if s != "" && s[0] != sep {
      HeadSplits(s[1..], sep);
      assert s[1..][|Head(s[1..], sep)|..] == s[|Head(s, sep)|..];
    }
  }

  /** There is at most one piece more than there are separators. */
  lemma {:induction false} TokensBound(s: string, sep: char)
    ensures |Tokens(s, sep)| <= Count(s, sep) + 1
    ensures s == "" || s[0] == sep ==> |Tokens(s, sep)| <= Count(s, sep)
    decreases |s|
  {
    if s != "" {
      if s[0] == sep {
        TokensBound(s[1..], sep);
      } else {
        HeadSplits(s, sep);
        TokensBound(s[|Head(s, sep)|..], sep);
      }
    }
  }

  // ---------- %d and atoi ----------

  function Digit(d: nat): char
    requires d < 10
  {
    '0' + d as char
  }

  /** %d of a non-negative number. */
  function Decimal(n: nat): (s: string)
    ensures s != "" && forall i :: 0 <= i < |s| ==> '0' <= s[i] <= '9'
  {
    if n < 10 then [Digit(n)] else Decimal(n / 10) + [Digit(n % 10)]
  }

  function Signed(n: int): string {
    if n < 0 then "-" + Decimal(-n) else Decimal(n)
  }

  predicate IsSpace(c: char) {
    c == ' ' || '\t' <= c <= '\r'
  }

  /** The value of the digits s starts with, after those already read. */
  function Digits(s: string, acc: nat): nat {
    if s != "" && '0' <= s[0] <= '9' then Digits(s[1..], 10 * acc + (s[0] as int - '0' as int)) else acc
  }

  function Unspaced(s: string): string {
    if s != "" && IsSpace(s[0]) then Unspaced(s[1..]) else s
  }

  /** The number as a 32-bit int: the C library leaves larger values undefined, and the
      model keeps their low 32 bits. */
  function Int32(n: int): (r: int)
    ensures -0x8000_0000 <= r < 0x8000_0000
    ensures -0x8000_0000 <= n < 0x8000_0000 ==> r == n
  {
    (n + 0x8000_0000) % 0x1_0000_0000 - 0x8000_0000
  }

  function Atoi(s: string): (r: int)
    ensures -0x8000_0000 <= r < 0x8000_0000
  {
    var t := Unspaced(s);
    if t != "" && t[0] == '-' then Int32(0 - Digits(t[1..], 0))
    else if t != "" && t[0] == '+' then Int32(Digits(t[1..], 0))
    else Int32(Digits(t, 0))
  }

  lemma {:induction false} DigitsAppend(s: string, d: char, acc: nat)
    requires '0' <= d <= '9' && forall i :: 0 <= i < |s| ==> '0' <= s[i] <= '9'
    ensures Digits(s + [d], acc) == 10 * Digits(s, acc) + (d as int - '0' as int)
  {
    if s == "" {
      assert s + [d] == [d];
      assert [d][1..] == "";
    } else {
      assert '0' <= s[0] <= '9';
      assert (s + [d])[1..] == s[1..] + [d];
      DigitsAppend(s[1..], d, 10 * acc + (s[0] as int - '0' as int));
    }
  }

  lemma {:induction false} DigitsDecimal(n: nat)
    ensures Digits(Decimal(n), 0) == n
  {
    if n < 10 {
      assert [Digit(n)][1..] == "";
    } else {
      DigitsDecimal(n / 10);
      DigitsAppend(Decimal(n / 10), Digit(n % 10), 0);
    }
  }

  lemma AtoiDecimal(n: nat)
    requires n < 0x8000_0000
    ensures Atoi(Decimal(n)) == n
  {
    DigitsDecimal(n);
    assert Unspaced(Decimal(n)) == Decimal(n);
  }

  lemma {:induction false} DigitsStop(s: string, rest: string, acc: nat)
    requires (forall i :: 0 <= i < |s| ==> '0' <= s[i] <= '9') && (rest != "" ==> !('0' <= rest[0] <= '9'))
    ensures Digits(s + rest, acc) == Digits(s, acc)
  {
    if s == "" {
      assert s + rest == rest;
    } else {
      assert '0' <= s[0] <= '9' && (s + rest)[1..] == s[1..] + rest;
      DigitsStop(s[1..], rest, 10 * acc + (s[0] as int - '0' as int));
    }
  }

  lemma {:induction false} SpaceSkipped(w: string, s: string)
    requires (forall i :: 0 <= i < |w| ==> w[i] in " \t\n\r") && s != "" && !IsSpace(s[0])
    ensures Unspaced(w + s) == s
  {
    if w == "" {
      assert w + s == s;
    } else {
      assert (w + s)[1..] == w[1..] + s;
      SpaceSkipped(w[1..], s);
    }
  }

  /** Space in front of a number and anything behind its digits make no difference. */
  lemma AtoiLoose(w: string, n: nat, rest: string)
    requires n < 0x8000_0000 && (forall i :: 0 <= i < |w| ==> w[i] in " \t\n\r")
    requires rest != "" ==> !('0' <= rest[0] <= '9')
    ensures Atoi(w + (Decimal(n) + rest)) == n
  {
    DigitsDecimal(n);
    DigitsStop(Decimal(n), rest, 0);
    hide Decimal, Digits;
    SpaceSkipped(w, Decimal(n) + rest);
  }

  /** So does a plus sign. */
  lemma AtoiPlus(w: string, n: nat, rest: string)
    requires n < 0x8000_0000 && (forall i :: 0 <= i < |w| ==> w[i] in " \t\n\r")
    requires rest != "" ==> !('0' <= rest[0] <= '9')
    ensures Atoi(w + ("+" + (Decimal(n) + rest))) == n
  {
    DigitsDecimal(n);
    DigitsStop(Decimal(n), rest, 0);
    hide Decimal, Digits;
    var t := "+" + (Decimal(n) + rest);
    SpaceSkipped(w, t);
    assert t[1..] == Decimal(n) + rest;
  }

  /** %d and atoi are inverse on ints. */
  lemma AtoiSigned(n: int)
    requires -0x8000_0000 <= n < 0x8000_0000
    ensures Atoi(Signed(n)) == n
  {
    if n >= 0 {
      AtoiDecimal(n);
    } else {
      DigitsDecimal(-n);
      assert Signed(n)[1..] == Decimal(-n);
      assert Unspaced(Signed(n)) == Signed(n);
    }
  }

  function Pow10(k: nat): nat {
    if k == 0 then 1 else 10 * Pow10(k - 1)
  }

  lemma {:induction false} DecimalLength(n: nat, k: nat)
    requires n < Pow10(k) && k > 0
    ensures |Decimal(n)| <= k
  {
    if n >= 10 {
      DecimalLength(n / 10, k - 1);
    }
  }

  lemma SignedLength(n: int)
    requires -0x8000_0000 <= n <= 0x8000_0000
    ensures |Signed(n)| <= 11
  {
    assert Pow10(10) == 10_000_000_000 by {
      assert Pow10(5) == 100_000;
    }
    DecimalLength(if n < 0 then -n else n, 10);
  }
}
