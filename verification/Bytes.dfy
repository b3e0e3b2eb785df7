/** Byte strings: big-endian integers, lexicographic order, prefixes. */
module Bytes {
  type byte = x: int | 0 <= x < 256
  type Bytes = seq<byte>

  datatype Option<+T> = None | Some(value: T)

  const TWO32: nat := 0x1_0000_0000
  const TWO64: nat := 0x1_0000_0000_0000_0000

  /** Conversion to uint32. */
  function Uint32(x: nat): (r: nat)
    ensures r < TWO32
    ensures x < TWO32 ==> r == x
    ensures x == TWO32 ==> r == 0
  {
    x % TWO32
  }

  // ----- big-endian integers ------------------------------------------------

  function Pow256(n: nat): (p: nat)
    ensures p > 0
  {
    if n == 0 then 1 else 256 * Pow256(n - 1)
  }

  /** v, modulo 256^n, as n bytes, most significant first. */
  function PutBE(v: nat, n: nat): (s: Bytes)
    ensures |s| == n
  {
    if n == 0 then [] else PutBE(v / 256, n - 1) + [v % 256]
  }

  function GetBE(s: Bytes): nat {
    if s == [] then 0 else GetBE(s[..|s| - 1]) * 256 + s[|s| - 1]
  }

  lemma {:induction false} GetPutBE(v: nat, n: nat)
    requires v < Pow256(n)
    ensures GetBE(PutBE(v, n)) == v
  {
    if n > 0 {
      assert v / 256 < Pow256(n - 1);
      GetPutBE(v / 256, n - 1);
      assert PutBE(v, n)[..n - 1] == PutBE(v / 256, n - 1);
    }
  }

  lemma {:induction false} PutGetBE(s: Bytes)
    ensures GetBE(s) < Pow256(|s|) && PutBE(GetBE(s), |s|) == s
  {
    if s != [] {
      PutGetBE(s[..|s| - 1]);
      assert s == s[..|s| - 1] + [s[|s| - 1]];
    }
  }

  lemma Widths()
    ensures Pow256(2) == 0x1_0000 && Pow256(4) == TWO32 && Pow256(8) == TWO64
  {}

  // ----- slices --------------------------------------------------------------

  lemma Middle(a: Bytes, b: Bytes, c: Bytes)
    ensures (a + b + c)[|a|..|a| + |b|] == b
  {}

  lemma SliceOfSlice(s: Bytes, lo: nat, hi: nat, i: nat, j: nat)
    requires lo <= hi <= |s| && i <= j <= hi - lo
    ensures s[lo..hi][i..j] == s[lo + i..lo + j]
  {
    var t := s[lo..hi];
    forall k | 0 <= k < j - i ensures t[i..j][k] == s[lo + i..lo + j][k] {}
  }

  function Zeros(n: nat): (s: Bytes)
    ensures |s| == n
    ensures forall i :: 0 <= i < n ==> s[i] == 0
  {
    seq(n, _ => 0)
  }

  lemma {:induction false} GetBEZeros(s: Bytes)
    requires forall i :: 0 <= i < |s| ==> s[i] == 0
    ensures GetBE(s) == 0
  {
    if s != [] { GetBEZeros(s[..|s| - 1]); }
  }

  lemma ZerosWithin(n: nat, lo: nat, hi: nat)
    requires lo <= hi <= n
    ensures Zeros(n)[lo..hi] == Zeros(hi - lo)
  {}

  lemma GetBEOfZeros(n: nat)
    ensures GetBE(Zeros(n)) == 0
  {
    GetBEZeros(Zeros(n));
  }
}
