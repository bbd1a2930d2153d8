/** Option values, bytes, and the little-endian integers of the 4D wire format. */
module Bytes {
  datatype Option<+T> = None | Some(value: T)

  type byte = x: int | 0 <= x < 256

  function Min(a: nat, b: nat): nat {
    if a <= b then a else b
  }

  function Max(a: nat, b: nat): nat {
    if a <= b then b else a
  }

  /** The number of values that fit in k bytes. */
  function Pow256(k: nat): (p: nat)
    ensures p >= 1
  {
    if k == 0 then 1 else 256 * Pow256(k - 1)
  }

  /** The k low bytes of n, least significant first; a negative n comes out in two's
      complement, because the quotient rounds down. */
  function ToLe(n: int, k: nat): (b: seq<byte>)
    ensures |b| == k
    decreases k
  {
    if k == 0 then [] else [n % 256] + ToLe(n / 256, k - 1)
  }

  function FromLe(b: seq<byte>): nat {
    if b == [] then 0 else b[0] + 256 * FromLe(b[1..])
  }

  /** The two's complement reading of the same bytes. */
  function FromSignedLe(b: seq<byte>): int {
    var u := FromLe(b);
    if 2 * u >= Pow256(|b|) then u - Pow256(|b|) else u
  }

  /** n is representable in k bytes of two's complement. */
  predicate Fits(n: int, k: nat) {
    0 <= 2 * n + Pow256(k) && 2 * n < Pow256(k)
  }

  lemma {:induction false} FromLeToLe(n: int, k: nat)
    requires 0 <= n + Pow256(k) && n < Pow256(k)
    ensures FromLe(ToLe(n, k)) == if n < 0 then n + Pow256(k) else n
    decreases k
  {
    if k > 0 {
      FromLeToLe(n / 256, k - 1);
    }
  }

  lemma {:induction false} ToLeFromLe(b: seq<byte>)
    ensures FromLe(b) < Pow256(|b|)
    ensures ToLe(FromLe(b), |b|) == b
  {
    if b != [] {
      ToLeFromLe(b[1..]);
    }
  }

  lemma {:induction false} ToLePeriodic(n: int, k: nat)
    ensures ToLe(n + Pow256(k), k) == ToLe(n, k)
    decreases k
  {
    if k > 0 {
      ToLePeriodic(n / 256, k - 1);
      assert n + Pow256(k) == n + 256 * Pow256(k - 1);
    }
  }

  lemma SignedRoundTrip(n: int, k: nat)
    requires Fits(n, k)
    ensures FromSignedLe(ToLe(n, k)) == n
  {
    FromLeToLe(n, k);
  }

  lemma SignedRoundTripBack(b: seq<byte>)
    ensures Fits(FromSignedLe(b), |b|)
    ensures ToLe(FromSignedLe(b), |b|) == b
  {
    hide ToLe, FromLe, Pow256;
    ToLeFromLe(b);
    ToLePeriodic(FromSignedLe(b), |b|);
  }

  /** Bytes that never arrived stay at the zero they were initialised to. */
  lemma {:induction false} FromLeZeroPadded(b: seq<byte>, zeros: seq<byte>)
    requires forall i :: 0 <= i < |zeros| ==> zeros[i] == 0
    ensures FromLe(b + zeros) == FromLe(b)
  {
    if b != [] {
      assert (b + zeros)[1..] == b[1..] + zeros;
      FromLeZeroPadded(b[1..], zeros);
    } else if zeros != [] {
      assert b + zeros == zeros;
      FromLeZeroPadded(b, zeros[1..]);
      assert b + zeros[1..] == zeros[1..];
    } else {
      assert b + zeros == [];
    }
  }

  /** The two widths whose bounds the code compares against. */
  lemma Pow256Values()
    ensures Pow256(2) == 0x1_0000
    ensures Pow256(4) == 0x1_0000_0000
    ensures Pow256(8) == 0x1_0000_0000_0000_0000
  {
    assert Pow256(1) == 256;
    assert Pow256(2) == 0x1_0000;
    assert Pow256(3) == 0x100_0000;
    assert Pow256(4) == 0x1_0000_0000;
    assert Pow256(5) == 0x100_0000_0000;
    assert Pow256(6) == 0x1_0000_0000_0000;
    assert Pow256(7) == 0x100_0000_0000_0000;
  }
}
