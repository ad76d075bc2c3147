/** Unsigned values as little-endian bit strings, and the three ways a
    segment value's bits can be rearranged: all bits reversed, the bits of
    each byte reversed, or the bytes reversed. */
module Bits {

  function Pow2(n: nat): (r: nat)
    ensures r >= 1
  {
    if n == 0 then 1 else 2 * Pow2(n - 1)
  }

  lemma {:induction false} Pow2Add(a: nat, b: nat)
    ensures Pow2(a + b) == Pow2(a) * Pow2(b)
    decreases a
  {
    if a > 0 {
      Pow2Add(a - 1, b);
      assert Pow2(a + b) == 2 * Pow2(a - 1 + b);
    }
  }

  lemma {:induction false} Pow2Monotone(a: nat, b: nat)
    requires a <= b
    ensures Pow2(a) <= Pow2(b)
    decreases b
  {
    if a < b {
      Pow2Monotone(a, b - 1);
    }
  }

  /** The low `n` bits of `v`; index 0 holds the least significant bit. */
  function ToBits(v: nat, n: nat): (b: seq<bool>)
    ensures |b| == n
  {
    if n == 0 then [] else [v % 2 == 1] + ToBits(v / 2, n - 1)
  }

  /** The value of a little-endian bit string. */
  function FromBits(b: seq<bool>): (v: nat)
    ensures v < Pow2(|b|)
  {
    if |b| == 0 then 0 else (if b[0] then 1 else 0) + 2 * FromBits(b[1..])
  }

  lemma {:induction false} FromToBits(v: nat, n: nat)
    requires v < Pow2(n)
    ensures FromBits(ToBits(v, n)) == v
    decreases n
  {
    if n > 0 {
      var b := ToBits(v, n);
      assert b[1..] == ToBits(v / 2, n - 1);
      FromToBits(v / 2, n - 1);
    }
  }

  lemma {:induction false} ToFromBits(b: seq<bool>)
    ensures ToBits(FromBits(b), |b|) == b
    decreases |b|
  {
    if |b| > 0 {
      var v := FromBits(b);
      assert v / 2 == FromBits(b[1..]);
      ToFromBits(b[1..]);
      assert b == [b[0]] + b[1..];
    }
  }

  /** Bits that are all clear have value zero. */
  lemma {:induction false} FromBitsZeros(b: seq<bool>)
    requires forall i :: 0 <= i < |b| ==> !b[i]
    ensures FromBits(b) == 0
    decreases |b|
  {
    if |b| > 0 {
      FromBitsZeros(b[1..]);
    }
  }

  /** Bits that are all set have the largest value of their width. */
  lemma {:induction false} FromBitsOnes(b: seq<bool>)
    requires forall i :: 0 <= i < |b| ==> b[i]
    ensures FromBits(b) == Pow2(|b|) - 1
    decreases |b|
  {
    if |b| > 0 {
      FromBitsOnes(b[1..]);
    }
  }

  /** Exactly bit `k` set: the value 2^k. */
  lemma {:induction false} FromBitsSingle(n: nat, k: nat)
    requires k < n
    ensures FromBits(seq(n, i => i == k)) == Pow2(k)
    decreases n
  {
    var b := seq(n, i => i == k);
    if k == 0 {
      FromBitsZeros(b[1..]);
    } else {
      assert b[1..] == seq(n - 1, i => i == k - 1);
      FromBitsSingle(n - 1, k - 1);
    }
  }

  /** The `k` lowest bits set and no other: the value 2^k - 1. */
  lemma {:induction false} FromBitsLowOnes(n: nat, k: nat)
    requires k <= n
    ensures FromBits(seq(n, i => i < k)) == Pow2(k) - 1
    decreases n
  {
    var b := seq(n, i => i < k);
    if k == 0 {
      FromBitsZeros(b);
    } else {
      assert b[1..] == seq(n - 1, i => i < k - 1);
      FromBitsLowOnes(n - 1, k - 1);
    }
  }

  /** The most significant bit of a non-empty bit string decides whether its
      value reaches half of its range. */
  lemma {:induction false} FromBitsTopBit(b: seq<bool>)
    requires |b| >= 1
    ensures FromBits(b) >= Pow2(|b| - 1) <==> b[|b| - 1]
    decreases |b|
  {
    if |b| > 1 {
      FromBitsTopBit(b[1..]);
      assert b[1..][|b| - 2] == b[|b| - 1];
    }
  }

  /** How the bits of a segment value are rearranged. */
  datatype Reorder =
    | AllBits         // bit i moves to bit n-1-i
    | BitsInEachByte  // the bits of every byte are reversed, bytes stay in place
    | ByteOrder       // the bytes are reversed, bits stay in place within a byte

  /** The position whose bit lands at position `i` of the rearranged string. */
  function Source(k: Reorder, n: nat, i: nat): (j: nat)
    requires n % 8 == 0 && i < n
    ensures j < n
  {
    match k
    case AllBits => n - 1 - i
    case BitsInEachByte => 8 * (i / 8) + 7 - i % 8
    case ByteOrder => 8 * (n / 8 - 1 - i / 8) + i % 8
  }

  /** Each rearrangement is its own inverse on positions. */
  lemma SourceInvolution(k: Reorder, n: nat, i: nat)
    requires n % 8 == 0 && i < n
    ensures Source(k, n, Source(k, n, i)) == i
  {
    var q, r := i / 8, i % 8;
    assert i == 8 * q + r;
    match k
    case AllBits =>
    case BitsInEachByte =>
      var j := 8 * q + 7 - r;
      assert j / 8 == q && j % 8 == 7 - r;
    case ByteOrder =>
      var j := 8 * (n / 8 - 1 - q) + r;
      assert j / 8 == n / 8 - 1 - q && j % 8 == r;
  }

  function Permute(b: seq<bool>, k: Reorder): (c: seq<bool>)
    requires |b| % 8 == 0
    ensures |c| == |b|
  {
    seq(|b|, i requires 0 <= i < |b| => b[Source(k, |b|, i)])
  }

  lemma PermuteInvolution(b: seq<bool>, k: Reorder)
    requires |b| % 8 == 0
    ensures Permute(Permute(b, k), k) == b
  {
    var c := Permute(Permute(b, k), k);
    forall i | 0 <= i < |b|
      ensures c[i] == b[i]
    {
      SourceInvolution(k, |b|, i);
    }
  }
}
