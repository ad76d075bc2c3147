/** A single address segment: a contiguous range [lower, upper] of unsigned
    values of a whole number of bytes, and the per-segment transformations
    the series operations are built from: bit and byte reversal. */
module Segment {
  import opened Results
  import opened Bits
  import opened BitFields

  /** The values lower, lower + 1, ..., upper of one segment. */
  datatype Range = Range(lower: nat, upper: nat)

  /** The largest value a segment of `bytes` bytes can hold. */
  function MaxValue(bytes: nat): (m: nat)
  {
    Pow2(8 * bytes) - 1
  }

  predicate ValidRange(r: Range, bytes: nat)
  {
    r.lower <= r.upper <= MaxValue(bytes)
  }

  predicate IsSingle(r: Range)
  {
    r.lower == r.upper
  }

  predicate Contains(r: Range, v: nat)
  {
    r.lower <= v <= r.upper
  }

  // ---------------------------------------------------------------------
  // Rearranging the bits of one value
  // ---------------------------------------------------------------------

  /** The value `v` of a `bytes`-byte segment with its bits rearranged by `k`. */
  function Reordered(v: nat, bytes: nat, k: Reorder): (r: nat)
    ensures r <= MaxValue(bytes)
  {
    FromBits(Permute(ToBits(v, 8 * bytes), k))
  }

  /** Rearranging twice gives the value back. */
  lemma ReorderedInvolution(v: nat, bytes: nat, k: Reorder)
    requires v <= MaxValue(bytes)
    ensures Reordered(Reordered(v, bytes, k), bytes, k) == v
  {
    var b := ToBits(v, 8 * bytes);
    var c := Permute(b, k);
    ToFromBits(c);
    PermuteInvolution(b, k);
    FromToBits(v, 8 * bytes);
  }

  /** The all-zero value is unchanged by every rearrangement. */
  lemma ReorderedZero(bytes: nat, k: Reorder)
    ensures Reordered(0, bytes, k) == 0
  {
    var z := seq(8 * bytes, i => false);
    FromBitsZeros(z);
    ToFromBits(z);
    assert ToBits(0, 8 * bytes) == z;
    var p := Permute(z, k);
    assert forall i :: 0 <= i < |p| ==> !p[i];
    FromBitsZeros(p);
  }

  /** The all-ones value is unchanged by every rearrangement. */
  lemma ReorderedMax(bytes: nat, k: Reorder)
    ensures Reordered(MaxValue(bytes), bytes, k) == MaxValue(bytes)
  {
    var o := seq(8 * bytes, i => true);
    FromBitsOnes(o);
    ToFromBits(o);
    assert ToBits(MaxValue(bytes), 8 * bytes) == o;
    var p := Permute(o, k);
    assert forall i :: 0 <= i < |p| ==> p[i];
    FromBitsOnes(p);
  }

  /** With all bits reversed, the lowest bit becomes the highest: a reversed
      value lies in the upper half exactly when the original value is odd. */
  lemma ReversedTopBit(v: nat, bytes: nat)
    requires 1 <= bytes && v <= MaxValue(bytes)
    ensures Reordered(v, bytes, AllBits) >= Pow2(8 * bytes - 1) <==> v % 2 == 1
  {
    var n := 8 * bytes;
    var c := Permute(ToBits(v, n), AllBits);
    FromBitsTopBit(c);
  }

  /** The lowest value of the upper half reverses to 1. */
  lemma ReversedHalf(bytes: nat)
    requires 1 <= bytes
    ensures Reordered(Pow2(8 * bytes - 1), bytes, AllBits) == 1
  {
    var n := 8 * bytes;
    var e := seq(n, i => i == n - 1);
    FromBitsSingle(n, n - 1);
    ToFromBits(e);
    assert ToBits(Pow2(n - 1), n) == e;
    var f := Permute(e, AllBits);
    assert f == seq(n, i => i == 0);
    FromBitsSingle(n, 0);
  }

  /** The highest value of the lower half reverses to max - 1. */
  lemma ReversedBelowHalf(bytes: nat)
    requires 1 <= bytes
    ensures Reordered(Pow2(8 * bytes - 1) - 1, bytes, AllBits) == MaxValue(bytes) - 1
  {
    var n := 8 * bytes;
    var g := seq(n, i => i < n - 1);
    FromBitsLowOnes(n, n - 1);
    ToFromBits(g);
    assert ToBits(Pow2(n - 1) - 1, n) == g;
    var h := Permute(g, AllBits);
    assert !h[0];
    assert h[1..] == seq(n - 1, i => true);
    FromBitsOnes(h[1..]);
    assert FromBits(h) == 2 * (Pow2(n - 1) - 1);
    Pow2Add(1, n - 1);
  }

  /** For one-byte segments, reversing the bits of each byte is reversing all bits. */
  lemma OneByteReversals(v: nat)
    ensures Reordered(v, 1, BitsInEachByte) == Reordered(v, 1, AllBits)
  {
    var b := ToBits(v, 8);
    assert Permute(b, BitsInEachByte) == Permute(b, AllBits);
  }

  /** For one-byte segments, reversing the byte order changes nothing. */
  lemma OneByteByteOrder(v: nat)
    requires v <= MaxValue(1)
    ensures Reordered(v, 1, ByteOrder) == v
  {
    var b := ToBits(v, 8);
    assert Permute(b, ByteOrder) == b;
    FromToBits(v, 8);
  }

  // ---------------------------------------------------------------------
  // The image of a range under a rearrangement
  // ---------------------------------------------------------------------

  /** A value-to-value map applied to every value of a segment. */
  datatype ValueMap =
    | Rearrange(bytes: nat, order: Reorder)  // bits moved around within `bytes` bytes
    | ClearBits(low: nat, width: nat)        // the `width` bits above the lowest `low` set to zero

  function Apply(f: ValueMap, v: nat): (x: nat)
  {
    match f
    case Rearrange(bytes, k) => Reordered(v, bytes, k)
    case ClearBits(m, w) => ClearBand(v, m, w)
  }

  /** `x` is the image under `f` of some value of `r`. */
  ghost predicate InImage(r: Range, f: ValueMap, x: nat)
  {
    exists v: nat :: Contains(r, v) && Apply(f, v) == x
  }

  /** The images of the values of `r` form one contiguous interval. */
  ghost predicate ImageContiguous(r: Range, f: ValueMap)
  {
    forall x: nat, y: nat, z: nat ::
      x <= y <= z && InImage(r, f, x) && InImage(r, f, z) ==> InImage(r, f, y)
  }

  /** `t` holds exactly the images of the values of `r`. */
  ghost predicate IsImage(r: Range, t: Range, f: ValueMap)
  {
    forall x: nat :: Contains(t, x) <==> InImage(r, f, x)
  }

  /** A range whose image is a range is contiguous. */
  lemma ImageIsContiguous(r: Range, t: Range, f: ValueMap)
    requires IsImage(r, t, f)
    ensures ImageContiguous(r, f)
  {
  }

  lemma InImageOf(r: Range, f: ValueMap, v: nat)
    requires Contains(r, v)
    ensures InImage(r, f, Apply(f, v))
  {
  }

  lemma InImageAt(r: Range, f: ValueMap, v: nat, x: nat)
    requires Contains(r, v) && Apply(f, v) == x
    ensures InImage(r, f, x)
  {
  }

  /** Two image values around `y` put `y` in a contiguous image. */
  lemma FillGap(r: Range, f: ValueMap, x: nat, y: nat, z: nat)
    requires ImageContiguous(r, f)
    requires x <= y <= z && InImage(r, f, x) && InImage(r, f, z)
    ensures InImage(r, f, y)
  {
  }

  /** A single value is mapped to the single image value. */
  lemma SingleImage(r: Range, f: ValueMap)
    requires IsSingle(r)
    ensures IsImage(r, Range(Apply(f, r.lower), Apply(f, r.lower)), f)
  {
    var t := Range(Apply(f, r.lower), Apply(f, r.lower));
    forall x: nat
      ensures Contains(t, x) <==> InImage(r, f, x)
    {
      if Contains(t, x) {
        InImageAt(r, f, r.lower, x);
      }
      if InImage(r, f, x) {
        var v: nat :| Contains(r, v) && Apply(f, v) == x;
        assert v == r.lower;
      }
    }
  }

  /** A range that misses at most the smallest and the largest value is
      mapped onto itself by every rearrangement, because each rearrangement is
      a bijection that fixes both of those values. */
  lemma NearlyFullImage(r: Range, bytes: nat, k: Reorder)
    requires ValidRange(r, bytes) && r.lower <= 1 && r.upper + 1 >= MaxValue(bytes)
    ensures IsImage(r, r, Rearrange(bytes, k))
  {
    ReorderedZero(bytes, k);
    ReorderedMax(bytes, k);
    forall x: nat
      ensures Contains(r, x) <==> InImage(r, Rearrange(bytes, k), x)
    {
      if Contains(r, x) {
        var y := Reordered(x, bytes, k);
        ReorderedInvolution(x, bytes, k);
        if y == 0 {
          ReorderedInvolution(0, bytes, k);
        } else if y == MaxValue(bytes) {
          ReorderedInvolution(MaxValue(bytes), bytes, k);
        }
        assert Contains(r, y) && Reordered(y, bytes, k) == x;
      }
      if InImage(r, Rearrange(bytes, k), x) {
        var v: nat :| Contains(r, v) && Reordered(v, bytes, k) == x;
        ReorderedInvolution(v, bytes, k);
        if x == 0 {
          assert v == 0;
        } else if x == MaxValue(bytes) {
          assert v == MaxValue(bytes);
        }
      }
    }
  }

  // ---------------------------------------------------------------------
  // Bit reversal of a segment
  // ---------------------------------------------------------------------

  /** The reversibility rule for ranges: a single value, or a range holding
      every value except possibly the smallest and/or the largest. */
  predicate BitReversible(r: Range, bytes: nat)
  {
    r.lower == r.upper || (r.lower <= 1 && r.upper + 1 >= MaxValue(bytes))
  }

  function BitOrder(perByte: bool): Reorder
  {
    if perByte then BitsInEachByte else AllBits
  }

  /** The segment with its bits reversed (within each byte when `perByte`),
      or IncompatibleAddress when the rule rejects the range. */
  function ReverseRangeBits(r: Range, bytes: nat, perByte: bool): (res: Result<Range>)
    requires ValidRange(r, bytes)
    ensures res.Ok? <==> BitReversible(r, bytes)
    ensures res.Err? ==> res.error == IncompatibleAddress
    ensures res.Ok? ==> ValidRange(res.value, bytes) && IsImage(r, res.value, Rearrange(bytes, BitOrder(perByte)))
    ensures res.Ok? ==> (IsSingle(res.value) <==> IsSingle(r))
  {
    var k := BitOrder(perByte);
    if r.lower == r.upper then
      SingleImage(r, Rearrange(bytes, k));
      Ok(Range(Reordered(r.lower, bytes, k), Reordered(r.lower, bytes, k)))
    else if r.lower <= 1 && r.upper + 1 >= MaxValue(bytes) then
      NearlyFullImage(r, bytes, k);
      Ok(r)
    else
      Err(IncompatibleAddress)
  }

  /** The rule is exact for reversing all bits: a range passes it precisely
      when its bit-reversed values form a contiguous interval. */
  lemma BitReversibleIffContiguous(r: Range, bytes: nat)
    requires 1 <= bytes && ValidRange(r, bytes)
    ensures BitReversible(r, bytes) <==> ImageContiguous(r, Rearrange(bytes, AllBits))
  {
    if BitReversible(r, bytes) {
      var res := ReverseRangeBits(r, bytes, false);
      ImageIsContiguous(r, res.value, Rearrange(bytes, AllBits));
    }
    if ImageContiguous(r, Rearrange(bytes, AllBits)) {
      ContiguousImpliesReversible(r, bytes);
    }
  }

  /** A ranging segment contains an even and an odd value; reversed, the first
      lies below the middle of the value range and the second above it, so a
      contiguous image contains both middle values. */
  lemma MiddleInImage(r: Range, bytes: nat)
    requires 1 <= bytes && ValidRange(r, bytes) && r.lower < r.upper
    requires ImageContiguous(r, Rearrange(bytes, AllBits))
    ensures InImage(r, Rearrange(bytes, AllBits), Pow2(8 * bytes - 1))
    ensures InImage(r, Rearrange(bytes, AllBits), Pow2(8 * bytes - 1) - 1)
  {
    var half := Pow2(8 * bytes - 1);
    var even, odd := EvenOdd(r);
    ReversedTopBit(even, bytes);
    ReversedTopBit(odd, bytes);
    var a, b := Reordered(even, bytes, AllBits), Reordered(odd, bytes, AllBits);
    InImageOf(r, Rearrange(bytes, AllBits), even);
    InImageOf(r, Rearrange(bytes, AllBits), odd);
    FillGap(r, Rearrange(bytes, AllBits), a, half, b);
    FillGap(r, Rearrange(bytes, AllBits), a, half - 1, b);
  }

  /** An even and an odd value of a ranging segment. */
  lemma EvenOdd(r: Range) returns (even: nat, odd: nat)
    requires r.lower < r.upper
    ensures Contains(r, even) && Contains(r, odd) && even % 2 == 0 && odd % 2 == 1
  {
    if r.lower % 2 == 0 {
      even, odd := r.lower, r.lower + 1;
    } else {
      even, odd := r.lower + 1, r.lower;
    }
  }

  /** The only value that reverses to the middle value is 1. */
  lemma HalfPreimage(r: Range, bytes: nat)
    requires 1 <= bytes && ValidRange(r, bytes)
    requires InImage(r, Rearrange(bytes, AllBits), Pow2(8 * bytes - 1))
    ensures Contains(r, 1)
  {
    var half := Pow2(8 * bytes - 1);
    var one: nat :| Contains(r, one) && Reordered(one, bytes, AllBits) == half;
    ReorderedInvolution(one, bytes, AllBits);
    ReversedHalf(bytes);
  }

  /** The only value that reverses to the value just below the middle is max - 1. */
  lemma BelowHalfPreimage(r: Range, bytes: nat)
    requires 1 <= bytes && ValidRange(r, bytes)
    requires InImage(r, Rearrange(bytes, AllBits), Pow2(8 * bytes - 1) - 1)
    ensures Contains(r, MaxValue(bytes) - 1)
  {
    var top: nat :| Contains(r, top) && Reordered(top, bytes, AllBits) == Pow2(8 * bytes - 1) - 1;
    ReorderedInvolution(top, bytes, AllBits);
    ReversedBelowHalf(bytes);
  }

  lemma ContiguousImpliesReversible(r: Range, bytes: nat)
    requires 1 <= bytes && ValidRange(r, bytes) && ImageContiguous(r, Rearrange(bytes, AllBits))
    ensures BitReversible(r, bytes)
  {
    if r.lower < r.upper {
      MiddleInImage(r, bytes);
      HalfPreimage(r, bytes);
      BelowHalfPreimage(r, bytes);
    }
  }

  /** With one-byte segments, reversing per byte follows the same exact rule. */
  lemma OneByteReversibleIffContiguous(r: Range)
    requires ValidRange(r, 1)
    ensures BitReversible(r, 1) <==> ImageContiguous(r, Rearrange(1, BitsInEachByte))
  {
    forall v: nat {
      OneByteReversals(v);
    }
    BitReversibleIffContiguous(r, 1);
    assert forall x: nat :: InImage(r, Rearrange(1, BitsInEachByte), x) <==> InImage(r, Rearrange(1, AllBits), x);
  }

  // ---------------------------------------------------------------------
  // Byte reversal of a segment
  // ---------------------------------------------------------------------

  /** The byte-reversal rule: one-byte segments always, otherwise a single
      value or the entire segment range. */
  predicate ByteReversible(r: Range, bytes: nat)
  {
    bytes == 1 || r.lower == r.upper || (r.lower == 0 && r.upper == MaxValue(bytes))
  }

  /** The segment with its bytes reversed, or IncompatibleAddress when the
      rule rejects the range. */
  function ReverseRangeBytes(r: Range, bytes: nat): (res: Result<Range>)
    requires ValidRange(r, bytes)
    ensures res.Ok? <==> ByteReversible(r, bytes)
    ensures res.Err? ==> res.error == IncompatibleAddress
    ensures res.Ok? ==> ValidRange(res.value, bytes) && IsImage(r, res.value, Rearrange(bytes, ByteOrder))
    ensures res.Ok? ==> (IsSingle(res.value) <==> IsSingle(r))
  {
    if r.lower == r.upper then
      SingleImage(r, Rearrange(bytes, ByteOrder));
      Ok(Range(Reordered(r.lower, bytes, ByteOrder), Reordered(r.lower, bytes, ByteOrder)))
    else if bytes == 1 then
      OneByteIdentityImage(r);
      Ok(r)
    else if r.lower == 0 && r.upper == MaxValue(bytes) then
      NearlyFullImage(r, bytes, ByteOrder);
      Ok(r)
    else
      Err(IncompatibleAddress)
  }

  lemma OneByteIdentityImage(r: Range)
    requires ValidRange(r, 1)
    ensures IsImage(r, r, Rearrange(1, ByteOrder))
  {
    forall x: nat
      ensures Contains(r, x) <==> InImage(r, Rearrange(1, ByteOrder), x)
    {
      if Contains(r, x) {
        OneByteByteOrder(x);
      }
      if InImage(r, Rearrange(1, ByteOrder), x) {
        var v: nat :| Contains(r, v) && Reordered(v, 1, ByteOrder) == x;
        OneByteByteOrder(v);
      }
    }
  }

  // ---------------------------------------------------------------------
  // Zeroing a band of bits in every value of a segment
  // ---------------------------------------------------------------------

  /** The values of `r` with the band zeroed stay contiguous: there is no band,
      or every value shares the bits above the band and either every value
      shares the band too, or the band runs through a whole intermediate
      value, or the low bits of the two ends leave no gap between them. */
  predicate BandClearable(r: Range, m: nat, w: nat)
  {
    var lo := r.lower;
    var hi := r.upper;
    w == 0 ||
    (High(lo, m, w) == High(hi, m, w) &&
     (Band(lo, m, w) == Band(hi, m, w) || Band(lo, m, w) + 1 < Band(hi, m, w) || Low(lo, m) <= Low(hi, m) + 1))
  }

  /** The segment with the band of `w` bits above its lowest `m` bits zeroed in
      every value, or IncompatibleAddress when those values are not contiguous. */
  function ClearRange(r: Range, m: nat, w: nat): (res: Result<Range>)
    requires r.lower <= r.upper
    ensures res.Ok? <==> BandClearable(r, m, w)
    ensures res.Err? ==> res.error == IncompatibleAddress
    ensures res.Ok? ==> res.value.lower <= res.value.upper <= r.upper
    ensures res.Ok? ==> IsImage(r, res.value, ClearBits(m, w))
  {
    if !BandClearable(r, m, w) then
      Err(IncompatibleAddress)
    else if w == 0 || Band(r.lower, m, w) == Band(r.upper, m, w) then
      ClearOneBand(r, m, w);
      Ok(Range(ClearBand(r.lower, m, w), ClearBand(r.upper, m, w)))
    else
      ClearAcrossBands(r, m, w);
      ClearedBelow(r, ZeroBandBlock(r, m, w), m, w);
      Ok(ZeroBandBlock(r, m, w))
  }

  /** A cleared image never reaches above the range it came from. */
  lemma ClearedBelow(r: Range, t: Range, m: nat, w: nat)
    requires t.lower <= t.upper && IsImage(r, t, ClearBits(m, w))
    ensures t.upper <= r.upper
  {
    assert InImage(r, ClearBits(m, w), t.upper);
    var v: nat :| Contains(r, v) && ClearBand(v, m, w) == t.upper;
    ClearBandSubtracts(v, m, w);
  }

  /** When all values of `r` share the band, clearing shifts the range down. */
  lemma BandConstant(r: Range, m: nat, w: nat, v: nat)
    requires Contains(r, v)
    requires w == 0 || (High(r.lower, m, w) == High(r.upper, m, w) && Band(r.lower, m, w) == Band(r.upper, m, w))
    ensures Band(v, m, w) == Band(r.lower, m, w)
  {
    if w > 0 {
      HighMonotone(r.lower, v, m, w);
      HighMonotone(v, r.upper, m, w);
    }
  }

  lemma ClearOneBand(r: Range, m: nat, w: nat)
    requires r.lower <= r.upper
    requires w == 0 || (High(r.lower, m, w) == High(r.upper, m, w) && Band(r.lower, m, w) == Band(r.upper, m, w))
    ensures ClearBand(r.lower, m, w) <= ClearBand(r.upper, m, w) <= r.upper
    ensures IsImage(r, Range(ClearBand(r.lower, m, w), ClearBand(r.upper, m, w)), ClearBits(m, w))
  {
    var f := ClearBits(m, w);
    var t := Range(ClearBand(r.lower, m, w), ClearBand(r.upper, m, w));
    MulOrder(0, Band(r.lower, m, w), Pow2(m));
    var shift := Band(r.lower, m, w) * Pow2(m);
    ClearBandSubtracts(r.lower, m, w);
    BandConstant(r, m, w, r.upper);
    ClearBandSubtracts(r.upper, m, w);
    forall x: nat
      ensures Contains(t, x) <==> InImage(r, f, x)
    {
      if Contains(t, x) {
        var v := x + shift;
        BandConstant(r, m, w, v);
        ClearBandSubtracts(v, m, w);
        InImageOf(r, f, v);
      }
      if InImage(r, f, x) {
        var v: nat :| Contains(r, v) && Apply(f, v) == x;
        BandConstant(r, m, w, v);
        ClearBandSubtracts(v, m, w);
      }
    }
  }

  /** The values sharing the bits above the band with `r.lower`, with a zero
      band: the cleared image of a range whose band changes. */
  function ZeroBandBlock(r: Range, m: nat, w: nat): Range
  {
    MulOrder(0, High(r.lower, m, w), Pow2(w));
    MulOrder(0, High(r.lower, m, w) * Pow2(w), Pow2(m));
    var base := (High(r.lower, m, w) * Pow2(w)) * Pow2(m);
    Range(base, base + Pow2(m) - 1)
  }

  lemma ClearAcrossBands(r: Range, m: nat, w: nat)
    requires r.lower <= r.upper && BandClearable(r, m, w) && w > 0
    requires Band(r.lower, m, w) != Band(r.upper, m, w)
    ensures IsImage(r, ZeroBandBlock(r, m, w), ClearBits(m, w))
  {
    forall x: nat
      ensures Contains(ZeroBandBlock(r, m, w), x) <==> InImage(r, ClearBits(m, w), x)
    {
      AcrossBandsPoint(r, m, w, x);
    }
  }

  lemma AcrossBandsPoint(r: Range, m: nat, w: nat, x: nat)
    requires r.lower <= r.upper && BandClearable(r, m, w) && w > 0
    requires Band(r.lower, m, w) != Band(r.upper, m, w)
    ensures Contains(ZeroBandBlock(r, m, w), x) <==> InImage(r, ClearBits(m, w), x)
  {
    var base := (High(r.lower, m, w) * Pow2(w)) * Pow2(m);
    if base <= x <= base + Pow2(m) - 1 {
      var l: nat := x - base;
      AcrossBandsPreimage(r, m, w, l);
    }
    if InImage(r, ClearBits(m, w), x) {
      var v: nat :| Contains(r, v) && ClearBand(v, m, w) == x;
      ClearedWithinBlock(r, m, w, v);
    }
  }

  /** With one High field throughout `r`, every cleared value keeps it. */
  lemma ClearedWithinBlock(r: Range, m: nat, w: nat, v: nat)
    requires Contains(r, v) && High(r.lower, m, w) == High(r.upper, m, w)
    ensures var base := (High(r.lower, m, w) * Pow2(w)) * Pow2(m);
      base <= ClearBand(v, m, w) <= base + Pow2(m) - 1
  {
    HighMonotone(r.lower, v, m, w);
    HighMonotone(v, r.upper, m, w);
    ShiftLow(v, m);
  }

  /** Every low-bit pattern occurs among the values of `r` with the common
      High field, so every value of the cleared block is reached. */
  lemma AcrossBandsPreimage(r: Range, m: nat, w: nat, l: nat)
    requires r.lower <= r.upper && BandClearable(r, m, w) && w > 0
    requires Band(r.lower, m, w) != Band(r.upper, m, w)
    requires l < Pow2(m)
    ensures InImage(r, ClearBits(m, w), (High(r.lower, m, w) * Pow2(w)) * Pow2(m) + l)
  {
    var lo, hi := r.lower, r.upper;
    var K, W := Pow2(m), Pow2(w);
    var h, bl, bh, ll, lh := High(lo, m, w), Band(lo, m, w), Band(hi, m, w), Low(lo, m), Low(hi, m);
    HighMonotone(lo, hi, m, w);
    Decompose(lo, m, w);
    Decompose(hi, m, w);
    MulOrder(0, h, W);
    var hw := h * W;
    var b := if l >= ll then bl else if l <= lh then bh else bl + 1;
    Between(hw + bl, ll, hw + b, l, hw + bh, lh, K);
    PreimageAt(r, m, w, h, b, l);
  }

  /** A quotient-and-remainder pair lying between two others, in that order,
      gives a value between theirs. */
  lemma Between(c1: nat, l1: nat, c: nat, l: nat, c2: nat, l2: nat, d: nat)
    requires l1 < d && l < d && l2 < d
    requires c1 < c || (c1 == c && l1 <= l)
    requires c < c2 || (c == c2 && l <= l2)
    ensures c1 * d + l1 <= c * d + l <= c2 * d + l2
  {
    if c1 < c {
      QuotientOrder(c1, l1, c, l, d);
    }
    if c < c2 {
      QuotientOrder(c, l, c2, l2, d);
    }
  }

  /** A value of `r` with fields (h, b, l) clears to (h, 0, l). */
  lemma PreimageAt(r: Range, m: nat, w: nat, h: nat, b: nat, l: nat)
    requires b < Pow2(w) && l < Pow2(m)
    requires Contains(r, (h * Pow2(w) + b) * Pow2(m) + l)
    ensures InImage(r, ClearBits(m, w), (h * Pow2(w)) * Pow2(m) + l)
  {
    MulOrder(0, h, Pow2(w));
    MulOrder(0, h * Pow2(w) + b, Pow2(m));
    MulOrder(0, h * Pow2(w), Pow2(m));
    var v := (h * Pow2(w) + b) * Pow2(m) + l;
    ClearComposed(v, h * Pow2(w) + b, h, b, l, m, w);
    InImageAt(r, ClearBits(m, w), v, (h * Pow2(w)) * Pow2(m) + l);
  }

  /** Clearing the band of a value built from fields (h, b, l) gives (h, 0, l). */
  lemma ClearComposed(v: nat, c: nat, h: nat, b: nat, l: nat, m: nat, w: nat)
    requires b < Pow2(w) && l < Pow2(m)
    requires c == h * Pow2(w) + b && v == c * Pow2(m) + l
    ensures Apply(ClearBits(m, w), v) == (h * Pow2(w)) * Pow2(m) + l
  {
    Compose(v, c, h, b, l, m, w);
  }

  /** A value whose band is not zero is not a cleared value. */
  lemma NotClearedWithBand(r: Range, m: nat, w: nat, y: nat)
    requires Band(y, m, w) != 0
    ensures !InImage(r, ClearBits(m, w), y)
  {
    if InImage(r, ClearBits(m, w), y) {
      var v: nat :| Contains(r, v) && ClearBand(v, m, w) == y;
      ClearBandFields(v, m, w);
    }
  }

  /** When the bits above the band differ between the ends, a value with band 1
      falls between the cleared ends. */
  lemma ClearGapAcrossHigh(r: Range, m: nat, w: nat)
    requires r.lower <= r.upper && w > 0 && High(r.lower, m, w) != High(r.upper, m, w)
    ensures !ImageContiguous(r, ClearBits(m, w))
  {
    var lo, hi := r.lower, r.upper;
    var f := ClearBits(m, w);
    var K, W := Pow2(m), Pow2(w);
    var hl, hh := High(lo, m, w), High(hi, m, w);
    HighMonotone(lo, hi, m, w);
    assert W >= 2;
    ShiftLow(lo, m);
    ShiftLow(hi, m);
    var x, z := ClearBand(lo, m, w), ClearBand(hi, m, w);
    MulOrder(0, hl, W);
    MulOrder(0, hh, W);
    MulOrder(0, hl * W + 1, K);
    var y := (hl * W + 1) * K + 0;
    Compose(y, hl * W + 1, hl, 1, 0, m, w);
    QuotientOrder(hl * W, Low(lo, m), hl * W + 1, 0, K);
    MulOrder(hl + 1, hh, W);
    Distribute(hl, 1, W);
    QuotientOrder(hl * W + 1, 0, hh * W, Low(hi, m), K);
    InImageOf(r, f, lo);
    InImageOf(r, f, hi);
    NotClearedWithBand(r, m, w, y);
    assert x <= y <= z && InImage(r, f, x) && InImage(r, f, z) && !InImage(r, f, y);
  }

  /** When the band steps by one between the ends and their low bits leave a
      gap, the value just above the cleared upper end is missing. */
  lemma ClearGapBetweenLows(r: Range, m: nat, w: nat)
    requires r.lower <= r.upper && w > 0 && High(r.lower, m, w) == High(r.upper, m, w)
    requires Band(r.lower, m, w) + 1 == Band(r.upper, m, w)
    requires Low(r.lower, m) > Low(r.upper, m) + 1
    ensures !ImageContiguous(r, ClearBits(m, w))
  {
    var lo, hi := r.lower, r.upper;
    var f := ClearBits(m, w);
    var x, z := ClearBand(hi, m, w), ClearBand(lo, m, w);
    var y := x + 1;
    InImageOf(r, f, lo);
    InImageOf(r, f, hi);
    MissingAboveUpper(r, m, w);
    assert x <= y <= z && InImage(r, f, x) && InImage(r, f, z) && !InImage(r, f, y);
  }

  lemma MissingAboveUpper(r: Range, m: nat, w: nat)
    requires r.lower <= r.upper && w > 0 && High(r.lower, m, w) == High(r.upper, m, w)
    requires Band(r.lower, m, w) + 1 == Band(r.upper, m, w)
    requires Low(r.lower, m) > Low(r.upper, m) + 1
    ensures !InImage(r, ClearBits(m, w), ClearBand(r.upper, m, w) + 1)
  {
    var y := ClearBand(r.upper, m, w) + 1;
    if InImage(r, ClearBits(m, w), y) {
      var v: nat :| Contains(r, v) && ClearBand(v, m, w) == y;
      NoValueAboveUpper(r, m, w, v);
    }
  }

  lemma NoValueAboveUpper(r: Range, m: nat, w: nat, v: nat)
    requires r.lower <= r.upper && w > 0 && High(r.lower, m, w) == High(r.upper, m, w)
    requires Band(r.lower, m, w) + 1 == Band(r.upper, m, w)
    requires Low(r.lower, m) > Low(r.upper, m) + 1
    requires Contains(r, v)
    ensures ClearBand(v, m, w) != ClearBand(r.upper, m, w) + 1
  {
    var lo, hi := r.lower, r.upper;
    var K, W := Pow2(m), Pow2(w);
    var h := High(lo, m, w);
    HighMonotone(lo, v, m, w);
    HighMonotone(v, hi, m, w);
    assert High(v, m, w) == h;
    Decompose(v, m, w);
    Decompose(lo, m, w);
    Decompose(hi, m, w);
  }

  /** The clearing rule is exact: a range passes it precisely when its values
      with the band zeroed form a contiguous interval. */
  lemma BandClearableIffContiguous(r: Range, m: nat, w: nat)
    requires r.lower <= r.upper
    ensures BandClearable(r, m, w) <==> ImageContiguous(r, ClearBits(m, w))
  {
    if BandClearable(r, m, w) {
      var res := ClearRange(r, m, w);
      ImageIsContiguous(r, res.value, ClearBits(m, w));
    } else if High(r.lower, m, w) != High(r.upper, m, w) {
      ClearGapAcrossHigh(r, m, w);
    } else {
      HighMonotone(r.lower, r.upper, m, w);
      ClearGapBetweenLows(r, m, w);
    }
  }

  // ---------------------------------------------------------------------
  // Prefix block of a segment
  // ---------------------------------------------------------------------

  /** `r` widened so that its lowest `h` (host) bits run over every value. */
  function BlockRange(r: Range, h: nat): (b: Range)
    ensures b.lower <= r.lower && r.upper <= b.upper
  {
    BlockBounds(r.lower, r.lower, h);
    BlockBounds(r.upper, r.upper, h);
    Range(BlockStart(r.lower, h), BlockEnd(r.upper, h))
  }

  /** `x` agrees with some value of `r` on every bit above the lowest `h`. */
  ghost predicate InBlock(r: Range, h: nat, x: nat)
  {
    exists v: nat :: Contains(r, v) && SameNetwork(x, v, h)
  }

  /** The block holds exactly the values whose network bits match a value of `r`. */
  lemma BlockRangeExact(r: Range, h: nat)
    requires r.lower <= r.upper
    ensures forall x: nat :: Contains(BlockRange(r, h), x) <==> InBlock(r, h, x)
  {
    var lo, hi := r.lower, r.upper;
    var b := BlockRange(r, h);
    forall x: nat
      ensures Contains(b, x) <==> InBlock(r, h, x)
    {
      BlockBounds(x, lo, h);
      BlockBounds(x, hi, h);
      if Contains(b, x) {
        var s := BlockStart(x, h);
        BlockBounds(s, x, h);
        BlockBounds(lo, lo, h);
        BlockBounds(hi, hi, h);
        if Shift(x, h) == Shift(lo, h) {
          assert Contains(r, lo) && SameNetwork(x, lo, h);
        } else if Shift(x, h) == Shift(hi, h) {
          assert Contains(r, hi) && SameNetwork(x, hi, h);
        } else {
          if s < lo {
            ShiftMonotone(s, lo, h);
            ShiftMonotone(lo, x, h);
          }
          if s > hi {
            ShiftMonotone(hi, s, h);
            ShiftMonotone(x, BlockEnd(hi, h), h);
          }
          assert Contains(r, s) && SameNetwork(x, s, h);
        }
      }
      if InBlock(r, h, x) {
        var v: nat :| Contains(r, v) && SameNetwork(x, v, h);
        BlockBounds(x, v, h);
        ShiftMonotone(lo, v, h);
        ShiftMonotone(v, hi, h);
        MulOrder(Shift(lo, h), Shift(v, h), Pow2(h));
        MulOrder(Shift(v, h), Shift(hi, h), Pow2(h));
      }
    }
  }

  /** The block of a valid segment is a valid segment. */
  lemma BlockRangeValid(r: Range, bytes: nat, h: nat)
    requires ValidRange(r, bytes) && h <= 8 * bytes
    ensures ValidRange(BlockRange(r, h), bytes)
  {
    BlockEndBound(r.upper, h, 8 * bytes);
  }

  /** Widening a block to its block changes nothing. */
  lemma BlockRangeIdempotent(r: Range, h: nat)
    ensures BlockRange(BlockRange(r, h), h) == BlockRange(r, h)
  {
    var b := BlockRange(r, h);
    BlockBounds(b.lower, r.lower, h);
    BlockBounds(b.upper, r.upper, h);
  }

  // ---------------------------------------------------------------------
  // Reversing twice
  // ---------------------------------------------------------------------

  /** A reversed segment reverses back to the original. */
  lemma ReverseRangeBitsTwice(r: Range, bytes: nat, perByte: bool)
    requires ValidRange(r, bytes) && ReverseRangeBits(r, bytes, perByte).Ok?
    ensures ReverseRangeBits(ReverseRangeBits(r, bytes, perByte).value, bytes, perByte) == Ok(r)
  {
    if IsSingle(r) {
      ReorderedInvolution(r.lower, bytes, BitOrder(perByte));
    }
  }

  /** A byte-reversed segment byte-reverses back to the original. */
  lemma ReverseRangeBytesTwice(r: Range, bytes: nat)
    requires ValidRange(r, bytes) && ReverseRangeBytes(r, bytes).Ok?
    ensures ReverseRangeBytes(ReverseRangeBytes(r, bytes).value, bytes) == Ok(r)
  {
    if IsSingle(r) {
      ReorderedInvolution(r.lower, bytes, ByteOrder);
    }
  }

  /** Byte reversal of a one-byte segment changes nothing. */
  lemma ReverseRangeBytesOneByte(r: Range)
    requires ValidRange(r, 1)
    ensures ReverseRangeBytes(r, 1) == Ok(r)
  {
    if IsSingle(r) {
      OneByteByteOrder(r.lower);
    }
  }

  // ---------------------------------------------------------------------
  // Facts the prefix operations rely on
  // ---------------------------------------------------------------------

  /** Clearing a band of no bits leaves the segment as it is. */
  lemma ClearRangeNoBand(r: Range, m: nat)
    requires r.lower <= r.upper
    ensures ClearRange(r, m, 0) == Ok(r)
  {
    ClearBandSubtracts(r.lower, m, 0);
    ClearBandSubtracts(r.upper, m, 0);
  }

  /** Every value of a cleared segment has a zero band and agrees with some
      value of the original segment on every bit outside the band. */
  lemma ClearRangeZeroes(r: Range, m: nat, w: nat, x: nat)
    requires r.lower <= r.upper && ClearRange(r, m, w).Ok? && Contains(ClearRange(r, m, w).value, x)
    ensures Band(x, m, w) == 0
    ensures exists v: nat :: Contains(r, v) && High(v, m, w) == High(x, m, w) && Low(v, m) == Low(x, m)
  {
    assert InImage(r, ClearBits(m, w), x);
    var v: nat :| Contains(r, v) && Apply(ClearBits(m, w), v) == x;
    ClearBandFields(v, m, w);
  }

  /** With no host bits the block is the segment itself. */
  lemma BlockRangeNoHost(r: Range)
    ensures BlockRange(r, 0) == r
  {
    ShiftLow(r.lower, 0);
    ShiftLow(r.upper, 0);
  }

  /** With every bit a host bit the block is the whole value space. */
  lemma BlockRangeAllHost(r: Range, bytes: nat)
    requires ValidRange(r, bytes)
    ensures BlockRange(r, 8 * bytes) == Range(0, MaxValue(bytes))
  {
    ShiftLowUnique(r.lower, 8 * bytes, 0, r.lower);
    ShiftLowUnique(r.upper, 8 * bytes, 0, r.upper);
  }
}
