/** The prefix-length operations of a segment series. Bit positions of a
    series are counted from the most significant bit of its first segment; a
    prefix length `p` makes positions 0 .. p - 1 the network bits and the
    rest the host bits. A series without a prefix length behaves, for these
    operations, as if its prefix covered every bit. */
module PrefixLength {
  import opened Results
  import opened BitFields
  import opened Segment
  import opened SegmentSeries

  /** `x` forced into 0 .. hi. */
  function Clamp(x: int, hi: nat): (c: nat)
    ensures c <= hi
    ensures 0 <= x <= hi ==> c == x
    ensures x < 0 ==> c == 0
    ensures x > hi ==> c == hi
  {
    if x < 0 then 0 else if x > hi then hi else x
  }

  /** Where series bit positions from .. to - 1 fall inside segment `i` of
      `bits` bits: a band of `w` bits above the lowest `m`. */
  datatype BandPos = BandPos(m: nat, w: nat)

  /** The band holds the bit `t` places above the least significant one. */
  predicate Covers(b: BandPos, t: nat)
  {
    b.m <= t < b.m + b.w
  }

  /** The bit `t` places above the least significant bit of segment `i` is
      series position i * bits + (bits - 1 - t); the band holds exactly those
      bits whose position lies in from .. to - 1. */
  function BandIn(bits: nat, i: nat, from: nat, to: nat): (b: BandPos)
    ensures b.m + b.w <= bits
    ensures forall t :: 0 <= t < bits ==>
      (Covers(b, t) <==> from <= i * bits + (bits - 1 - t) < to)
  {
    var a := Clamp(from - i * bits, bits);
    var e := Clamp(to - i * bits, bits);
    BandPos(bits - e, if a <= e then e - a else 0)
  }

  /** A segment that the positions do not reach gets an empty band. */
  lemma BandOutside(bits: nat, i: nat, from: nat, to: nat)
    requires (i + 1) * bits <= from || to <= i * bits || to <= from
    ensures BandIn(bits, i, from, to).w == 0
  {
    assert (i + 1) * bits == i * bits + bits;
  }

  /** The map that zeroes, in a value of segment `i`, the series bit positions
      from .. to - 1. */
  function ZeroMap(s: Series, i: nat, from: nat, to: nat): ValueMap
  {
    var b := BandIn(BitsPerSegment(s), i, from, to);
    ClearBits(b.m, b.w)
  }

  /** The segments of `s` with series bit positions from .. to - 1 zeroed in
      every value; IncompatibleAddress, with no partial result, when the
      zeroed values of some segment are not one contiguous range. */
  function ZeroBits(s: Series, from: nat, to: nat): (res: Result<seq<Range>>)
    requires Valid(s)
    ensures res.Ok? <==> forall i :: 0 <= i < SegmentCount(s) ==>
      BandClearable(s.segments[i], BandIn(BitsPerSegment(s), i, from, to).m, BandIn(BitsPerSegment(s), i, from, to).w)
    ensures res.Err? ==> res.error == IncompatibleAddress
    ensures res.Ok? ==> |res.value| == SegmentCount(s) && ValidSegments(res.value, s.bytesPerSegment)
    ensures res.Ok? ==> forall i :: 0 <= i < SegmentCount(s) ==>
      IsImage(s.segments[i], res.value[i], ZeroMap(s, i, from, to))
  {
    var n, bits := |s.segments|, BitsPerSegment(s);
    if forall i :: 0 <= i < n ==> BandClearable(s.segments[i], BandIn(bits, i, from, to).m, BandIn(bits, i, from, to).w) then
      Ok(seq(n, i requires 0 <= i < n =>
               ClearRange(s.segments[i], BandIn(bits, i, from, to).m, BandIn(bits, i, from, to).w).value))
    else
      Err(IncompatibleAddress)
  }

  /** Zeroing fails exactly when some segment's zeroed values leave a gap. */
  lemma ZeroBitsFailsExactly(s: Series, from: nat, to: nat)
    requires Valid(s)
    ensures ZeroBits(s, from, to).Err? <==>
      exists i :: 0 <= i < SegmentCount(s) && !ImageContiguous(s.segments[i], ZeroMap(s, i, from, to))
  {
    forall i | 0 <= i < SegmentCount(s)
      ensures BandClearable(s.segments[i], BandIn(BitsPerSegment(s), i, from, to).m, BandIn(BitsPerSegment(s), i, from, to).w)
              <==> ImageContiguous(s.segments[i], ZeroMap(s, i, from, to))
    {
      var b := BandIn(BitsPerSegment(s), i, from, to);
      BandClearableIffContiguous(s.segments[i], b.m, b.w);
    }
  }

  /** Segments holding none of the zeroed positions come through unchanged;
      every value of every other segment has the zeroed band clear. */
  lemma ZeroBitsEffect(s: Series, from: nat, to: nat, i: nat, x: nat)
    requires Valid(s) && ZeroBits(s, from, to).Ok? && i < SegmentCount(s)
    ensures (i + 1) * BitsPerSegment(s) <= from || to <= i * BitsPerSegment(s) || to <= from ==>
      ZeroBits(s, from, to).value[i] == s.segments[i]
    ensures Contains(ZeroBits(s, from, to).value[i], x) ==>
      Band(x, BandIn(BitsPerSegment(s), i, from, to).m, BandIn(BitsPerSegment(s), i, from, to).w) == 0
  {
    var b := BandIn(BitsPerSegment(s), i, from, to);
    if (i + 1) * BitsPerSegment(s) <= from || to <= i * BitsPerSegment(s) || to <= from {
      BandOutside(BitsPerSegment(s), i, from, to);
      ClearRangeNoBand(s.segments[i], b.m);
    }
    if Contains(ZeroBits(s, from, to).value[i], x) {
      ClearRangeZeroes(s.segments[i], b.m, b.w, x);
    }
  }

  /** Zeroing no positions changes nothing and cannot fail. */
  lemma ZeroBitsEmpty(s: Series, from: nat, to: nat)
    requires Valid(s) && to <= from
    ensures ZeroBits(s, from, to) == Ok(s.segments)
  {
    forall i | 0 <= i < SegmentCount(s)
      ensures BandIn(BitsPerSegment(s), i, from, to).w == 0
    {
      BandOutside(BitsPerSegment(s), i, from, to);
    }
    forall i | 0 <= i < SegmentCount(s)
      ensures ClearRange(s.segments[i], BandIn(BitsPerSegment(s), i, from, to).m, 0) == Ok(s.segments[i])
    {
      ClearRangeNoBand(s.segments[i], BandIn(BitsPerSegment(s), i, from, to).m);
    }
    assert ZeroBits(s, from, to).value == s.segments;
  }

  // ---------------------------------------------------------------------
  // Setting, removing, adjusting and applying a prefix length
  // ---------------------------------------------------------------------

  /** The prefix length the operations work from: the series' own, or its bit
      count when it has none. */
  function EffectivePrefix(s: Series): (p: nat)
    requires Valid(s)
    ensures p <= BitCount(s)
    ensures s.prefixLength.Some? ==> p == s.prefixLength.value
    ensures s.prefixLength.None? ==> p == BitCount(s)
  {
    if s.prefixLength.Some? then s.prefixLength.value else BitCount(s)
  }

  /** The positions a change of prefix length from `cur` to `q` zeroes in a
      series of `total` bits: those moved inside the prefix when it grows
      (never past the end of the series), those moved outside it when it
      shrinks and the family zeroes them, and none otherwise. */
  function ZeroedSpan(cur: nat, q: nat, total: nat, zeroOnShrink: bool): (span: (nat, nat))
    requires cur <= total
    ensures span.0 <= span.1 <= total
    ensures cur <= q ==> span == (cur, if q <= total then q else total)
    ensures q < cur && zeroOnShrink ==> span == (q, cur)
    ensures q < cur && !zeroOnShrink ==> span.0 == span.1
  {
    if cur <= q then (cur, if q <= total then q else total)
    else if zeroOnShrink then (q, cur)
    else (cur, cur)
  }

  /** The series with prefix length `q`: bits moved inside the prefix become
      zero; bits moved outside it become zero when `zeroOnShrink` (the family's
      policy); a length past the end of the series removes the prefix.
      InvalidPrefixLength for a negative length. */
  function SetPrefixLength(s: Series, q: int, zeroOnShrink: bool): (res: Result<Series>)
    requires Valid(s)
    ensures q < 0 ==> res == Err(InvalidPrefixLength)
    ensures q >= 0 ==>
      var span := ZeroedSpan(EffectivePrefix(s), q, BitCount(s), zeroOnShrink);
      && (res.Ok? <==> ZeroBits(s, span.0, span.1).Ok?)
      && (res.Ok? ==> res.value.segments == ZeroBits(s, span.0, span.1).value)
    ensures q >= 0 && res.Err? ==> res.error == IncompatibleAddress
    ensures res.Ok? ==> Valid(res.value) && res.value.bytesPerSegment == s.bytesPerSegment
    ensures res.Ok? ==> res.value.prefixLength == if q > BitCount(s) then None else Some(q)
  {
    if q < 0 then
      Err(InvalidPrefixLength)
    else
      var span := ZeroedSpan(EffectivePrefix(s), q, BitCount(s), zeroOnShrink);
      match ZeroBits(s, span.0, span.1)
      case Err(e) => Err(e)
      case Ok(segs) => Ok(Series(segs, s.bytesPerSegment, if q > BitCount(s) then None else Some(q)))
  }

  /** Growing the prefix zeroes exactly the bits it moves inside the prefix,
      up to the end of the series, whatever the family's policy. */
  lemma SetPrefixLengthGrowing(s: Series, q: nat, zeroOnShrink: bool)
    requires Valid(s) && EffectivePrefix(s) <= q
    ensures var to := if q <= BitCount(s) then q else BitCount(s);
      && (SetPrefixLength(s, q, zeroOnShrink).Ok? <==> ZeroBits(s, EffectivePrefix(s), to).Ok?)
      && (SetPrefixLength(s, q, zeroOnShrink).Ok? ==>
            SetPrefixLength(s, q, zeroOnShrink).value.segments == ZeroBits(s, EffectivePrefix(s), to).value)
  {
    var to := if q <= BitCount(s) then q else BitCount(s);
    assert ZeroedSpan(EffectivePrefix(s), q, BitCount(s), zeroOnShrink) == (EffectivePrefix(s), to);
  }

  /** Shrinking the prefix of a family that keeps the bits moved outside it
      never fails and leaves every segment as it is. */
  lemma SetPrefixLengthKeepingBits(s: Series, q: nat)
    requires Valid(s) && q < EffectivePrefix(s)
    ensures SetPrefixLength(s, q, false) == Ok(Series(s.segments, s.bytesPerSegment, Some(q)))
  {
    var span := ZeroedSpan(EffectivePrefix(s), q, BitCount(s), false);
    ZeroBitsEmpty(s, span.0, span.1);
  }

  /** Shortening the prefix (or keeping its length) zeroes exactly the bits it
      moves outside the prefix when the family zeroes them, and nothing
      otherwise; a family that keeps the bits never sees it fail. */
  lemma SetPrefixLengthShrinking(s: Series, q: nat, zeroOnShrink: bool)
    requires Valid(s) && q <= EffectivePrefix(s)
    ensures var from := if zeroOnShrink then q else EffectivePrefix(s);
      && (SetPrefixLength(s, q, zeroOnShrink).Ok? <==> ZeroBits(s, from, EffectivePrefix(s)).Ok?)
      && (SetPrefixLength(s, q, zeroOnShrink).Ok? ==>
            SetPrefixLength(s, q, zeroOnShrink).value.segments == ZeroBits(s, from, EffectivePrefix(s)).value)
    ensures !zeroOnShrink ==>
      SetPrefixLength(s, q, zeroOnShrink).Ok? && SetPrefixLength(s, q, zeroOnShrink).value.segments == s.segments
  {
    var cur := EffectivePrefix(s);
    var from := if zeroOnShrink then q else cur;
    assert ZeroedSpan(cur, q, BitCount(s), zeroOnShrink) == (from, cur);
    if !zeroOnShrink {
      ZeroBitsEmpty(s, cur, cur);
    }
  }

  /** Setting a series' own prefix length changes nothing. */
  lemma SetPrefixLengthSame(s: Series, zeroOnShrink: bool)
    requires Valid(s) && s.prefixLength.Some?
    ensures SetPrefixLength(s, s.prefixLength.value, zeroOnShrink) == Ok(s)
  {
    var p := s.prefixLength.value;
    ZeroBitsEmpty(s, p, p);
  }

  /** Setting the same prefix length again changes nothing more. */
  lemma SetPrefixLengthIdempotent(s: Series, q: int, zeroOnShrink: bool)
    requires Valid(s) && SetPrefixLength(s, q, zeroOnShrink).Ok?
    ensures SetPrefixLength(SetPrefixLength(s, q, zeroOnShrink).value, q, zeroOnShrink)
            == SetPrefixLength(s, q, zeroOnShrink)
  {
    var t := SetPrefixLength(s, q, zeroOnShrink).value;
    var cur := EffectivePrefix(t);
    assert cur <= q;
    ZeroBitsEmpty(t, cur, cur);
    if q > BitCount(s) {
      assert BitCount(t) == BitCount(s);
    }
  }

  /** Every segment lying wholly before both the old and the new prefix
      length keeps its values. */
  lemma SetPrefixLengthKeepsNetwork(s: Series, q: nat, zeroOnShrink: bool, i: nat)
    requires Valid(s) && SetPrefixLength(s, q, zeroOnShrink).Ok? && i < SegmentCount(s)
    requires (i + 1) * BitsPerSegment(s) <= q && (i + 1) * BitsPerSegment(s) <= EffectivePrefix(s)
    ensures SetPrefixLength(s, q, zeroOnShrink).value.segments[i] == s.segments[i]
  {
    var span := ZeroedSpan(EffectivePrefix(s), q, BitCount(s), zeroOnShrink);
    ZeroBitsEffect(s, span.0, span.1, i, 0);
  }

  /** The series without a prefix length; the host bits of the prefix it had
      become zero. */
  function RemovePrefixLength(s: Series): (res: Result<Series>)
    requires Valid(s)
    ensures s.prefixLength.None? ==> res == Ok(s)
    ensures s.prefixLength.Some? ==>
      && (res.Ok? <==> ZeroBits(s, s.prefixLength.value, BitCount(s)).Ok?)
      && (res.Ok? ==> res.value.segments == ZeroBits(s, s.prefixLength.value, BitCount(s)).value)
    ensures res.Err? ==> res.error == IncompatibleAddress
    ensures res.Ok? ==> Valid(res.value) && res.value.bytesPerSegment == s.bytesPerSegment
    ensures res.Ok? ==> res.value.prefixLength.None?
  {
    match s.prefixLength
    case None => Ok(s)
    case Some(p) =>
      match ZeroBits(s, p, BitCount(s))
      case Err(e) => Err(e)
      case Ok(segs) => Ok(Series(segs, s.bytesPerSegment, None))
  }

  /** Removing the prefix length is setting it past the end of the series,
      whatever the family's policy. */
  lemma RemoveIsSetPastEnd(s: Series, zeroOnShrink: bool)
    requires Valid(s)
    ensures RemovePrefixLength(s) == SetPrefixLength(s, BitCount(s) + 1, zeroOnShrink)
  {
    if s.prefixLength.None? {
      ZeroBitsEmpty(s, BitCount(s), BitCount(s));
    }
  }

  /** After removal every host bit of the old prefix is zero in every value,
      and every segment wholly inside the old prefix is unchanged. */
  lemma RemovePrefixLengthZeroesHost(s: Series, i: nat, x: nat)
    requires Valid(s) && s.prefixLength.Some? && RemovePrefixLength(s).Ok? && i < SegmentCount(s)
    ensures (i + 1) * BitsPerSegment(s) <= s.prefixLength.value ==>
      RemovePrefixLength(s).value.segments[i] == s.segments[i]
    ensures Contains(RemovePrefixLength(s).value.segments[i], x) ==>
      Band(x, BandIn(BitsPerSegment(s), i, s.prefixLength.value, BitCount(s)).m,
              BandIn(BitsPerSegment(s), i, s.prefixLength.value, BitCount(s)).w) == 0
  {
    ZeroBitsEffect(s, s.prefixLength.value, BitCount(s), i, x);
  }

  /** The prefix length moved by `adjustment` bits (never below zero): as
      SetPrefixLength, so a length past the end removes the prefix. An
      adjustment of zero changes nothing, even for a series without a prefix
      length. */
  function AdjustPrefixLength(s: Series, adjustment: int, zeroOnShrink: bool): (res: Result<Series>)
    requires Valid(s)
    ensures adjustment == 0 ==> res == Ok(s)
    ensures res.Err? ==> res.error == IncompatibleAddress
    ensures res.Ok? ==> Valid(res.value)
    ensures res.Ok? ==> (
      res.value.prefixLength ==
        if EffectivePrefix(s) + adjustment > BitCount(s) || (s.prefixLength.None? && adjustment == 0) then None
        else if EffectivePrefix(s) + adjustment < 0 then Some(0)
        else Some(EffectivePrefix(s) + adjustment))
  {
    if adjustment == 0 then
      Ok(s)
    else
      var target := EffectivePrefix(s) + adjustment;
      SetPrefixLength(s, if target < 0 then 0 else target, zeroOnShrink)
  }

  /** Growing the prefix zeroes exactly the bits it moves inside the prefix,
      up to the end of the series. */
  lemma AdjustPrefixLengthGrowing(s: Series, adjustment: nat, zeroOnShrink: bool)
    requires Valid(s)
    ensures var to := if EffectivePrefix(s) + adjustment <= BitCount(s) then EffectivePrefix(s) + adjustment else BitCount(s);
      && (AdjustPrefixLength(s, adjustment, zeroOnShrink).Ok? <==> ZeroBits(s, EffectivePrefix(s), to).Ok?)
      && (AdjustPrefixLength(s, adjustment, zeroOnShrink).Ok? ==>
            AdjustPrefixLength(s, adjustment, zeroOnShrink).value.segments == ZeroBits(s, EffectivePrefix(s), to).value)
  {
    var cur := EffectivePrefix(s);
    var res := AdjustPrefixLength(s, adjustment, zeroOnShrink);
    if adjustment == 0 {
      assert res == Ok(s);
      ZeroBitsEmpty(s, cur, cur);
    } else {
      assert res == SetPrefixLength(s, cur + adjustment, zeroOnShrink);
      SetPrefixLengthGrowing(s, cur + adjustment, zeroOnShrink);
    }
  }

  /** A negative adjustment zeroes exactly the bits it moves outside the
      prefix when the family zeroes them; a family that keeps the bits never
      sees it fail, and its segments never change. */
  lemma AdjustPrefixLengthShrinking(s: Series, adjustment: int, zeroOnShrink: bool)
    requires Valid(s) && adjustment < 0
    ensures var cur := EffectivePrefix(s);
      var from := if !zeroOnShrink then cur else if cur + adjustment < 0 then 0 else cur + adjustment;
      && (AdjustPrefixLength(s, adjustment, zeroOnShrink).Ok? <==> ZeroBits(s, from, cur).Ok?)
      && (AdjustPrefixLength(s, adjustment, zeroOnShrink).Ok? ==>
            AdjustPrefixLength(s, adjustment, zeroOnShrink).value.segments == ZeroBits(s, from, cur).value)
    ensures !zeroOnShrink ==>
      AdjustPrefixLength(s, adjustment, zeroOnShrink).Ok?
      && AdjustPrefixLength(s, adjustment, zeroOnShrink).value.segments == s.segments
  {
    var target := EffectivePrefix(s) + adjustment;
    var q := if target < 0 then 0 else target;
    assert AdjustPrefixLength(s, adjustment, zeroOnShrink) == SetPrefixLength(s, q, zeroOnShrink);
    SetPrefixLengthShrinking(s, q, zeroOnShrink);
  }

  /** The segment boundary next to prefix length `cur`: the first one past it,
      or the last one before it (zero stays zero). */
  function NextBoundary(cur: nat, bits: nat, next: bool): (t: nat)
    requires bits > 0
    ensures t % bits == 0
    ensures next ==> cur < t <= cur + bits
    ensures !next && cur > 0 ==> t < cur <= t + bits
    ensures !next && cur == 0 ==> t == 0
  {
    QuotientBound(cur, bits);
    var t := if next then (cur / bits + 1) * bits else if cur == 0 then 0 else ((cur - 1) / bits) * bits;
    BoundaryFacts(cur, bits, next, t);
    t
  }

  lemma BoundaryFacts(cur: nat, bits: nat, next: bool, t: nat)
    requires bits > 0
    requires t == if next then (cur / bits + 1) * bits else if cur == 0 then 0 else ((cur - 1) / bits) * bits
    ensures t % bits == 0
    ensures next ==> cur < t <= cur + bits
    ensures !next && cur > 0 ==> t < cur <= t + bits
    ensures !next && cur == 0 ==> t == 0
  {
    if next {
      QuotientBound(cur, bits);
      RoundUp(cur, bits, cur / bits + 1);
    } else if cur > 0 {
      QuotientBound(cur - 1, bits);
      RoundUp(cur - 1, bits, (cur - 1) / bits);
    } else {
      DivModUnique(0, bits, 0, 0);
    }
  }

  /** A multiple of `bits` and how it sits around `v`. */
  lemma RoundUp(v: nat, bits: nat, k: nat)
    requires bits > 0 && (k == v / bits || k == v / bits + 1)
    ensures (k * bits) % bits == 0
    ensures k == v / bits ==> k * bits <= v < k * bits + bits
    ensures k == v / bits + 1 ==> v < k * bits <= v + bits
  {
    var q, r := v / bits, v % bits;
    assert v == q * bits + r && r < bits;
    DivModUnique(k * bits, bits, k, 0);
    Distribute(q, 1, bits);
  }

  /** The prefix length moved to the next or previous segment boundary: as
      SetPrefixLength, so moving past the last segment removes the prefix. */
  function AdjustPrefixBySegment(s: Series, nextSegment: bool, zeroOnShrink: bool): (res: Result<Series>)
    requires Valid(s)
    ensures res.Err? ==> res.error == IncompatibleAddress
    ensures res.Ok? ==> Valid(res.value)
    ensures res.Ok? ==> (
      res.value.prefixLength ==
        if nextSegment && EffectivePrefix(s) == BitCount(s) then None
        else Some(NextBoundary(EffectivePrefix(s), BitsPerSegment(s), nextSegment)))
  {
    var cur := EffectivePrefix(s);
    var t := NextBoundary(cur, BitsPerSegment(s), nextSegment);
    BoundaryPastEnd(cur, SegmentCount(s), BitsPerSegment(s), nextSegment);
    SetPrefixLength(s, t, zeroOnShrink)
  }

  /** Moving to the next boundary zeroes exactly the bits it moves inside the
      prefix, up to the end of the series. */
  lemma AdjustPrefixBySegmentGrowing(s: Series, zeroOnShrink: bool)
    requires Valid(s)
    ensures var cur := EffectivePrefix(s);
      var t := NextBoundary(cur, BitsPerSegment(s), true);
      var to := if t <= BitCount(s) then t else BitCount(s);
      && (AdjustPrefixBySegment(s, true, zeroOnShrink).Ok? <==> ZeroBits(s, cur, to).Ok?)
      && (AdjustPrefixBySegment(s, true, zeroOnShrink).Ok? ==>
            AdjustPrefixBySegment(s, true, zeroOnShrink).value.segments == ZeroBits(s, cur, to).value)
  {
    var cur := EffectivePrefix(s);
    var t := NextBoundary(cur, BitsPerSegment(s), true);
    assert AdjustPrefixBySegment(s, true, zeroOnShrink) == SetPrefixLength(s, t, zeroOnShrink);
    SetPrefixLengthGrowing(s, t, zeroOnShrink);
  }

  /** Moving to the previous boundary zeroes exactly the bits it moves outside
      the prefix when the family zeroes them; a family that keeps the bits
      never sees it fail, and its segments never change. */
  lemma AdjustPrefixBySegmentShrinking(s: Series, zeroOnShrink: bool)
    requires Valid(s)
    ensures var cur := EffectivePrefix(s);
      var from := if zeroOnShrink then NextBoundary(cur, BitsPerSegment(s), false) else cur;
      && (AdjustPrefixBySegment(s, false, zeroOnShrink).Ok? <==> ZeroBits(s, from, cur).Ok?)
      && (AdjustPrefixBySegment(s, false, zeroOnShrink).Ok? ==>
            AdjustPrefixBySegment(s, false, zeroOnShrink).value.segments == ZeroBits(s, from, cur).value)
    ensures !zeroOnShrink ==>
      AdjustPrefixBySegment(s, false, zeroOnShrink).Ok?
      && AdjustPrefixBySegment(s, false, zeroOnShrink).value.segments == s.segments
  {
    var cur := EffectivePrefix(s);
    var t := NextBoundary(cur, BitsPerSegment(s), false);
    assert AdjustPrefixBySegment(s, false, zeroOnShrink) == SetPrefixLength(s, t, zeroOnShrink);
    SetPrefixLengthShrinking(s, t, zeroOnShrink);
  }

  /** Only stepping forward from the very end leaves the series. */
  lemma BoundaryPastEnd(cur: nat, n: nat, bits: nat, next: bool)
    requires bits > 0 && cur <= n * bits
    ensures NextBoundary(cur, bits, next) > n * bits <==> next && cur == n * bits
  {
    var t := NextBoundary(cur, bits, next);
    if next {
      var k := t / bits;
      DivModUnique(t, bits, k, 0);
      MulOrder(n + 1, k, bits);
      Distribute(n, 1, bits);
      MulOrder(k, n, bits);
      if cur == n * bits {
        DivModUnique(cur, bits, n, 0);
      }
    }
  }

  /** The prefix length `q` applied without ever lengthening the prefix: the
      series itself when its prefix is already no longer, otherwise as
      SetPrefixLength. */
  function ApplyPrefixLength(s: Series, q: int, zeroOnShrink: bool): (res: Result<Series>)
    requires Valid(s)
    ensures s.prefixLength.Some? && s.prefixLength.value <= q ==> res == Ok(s)
    ensures q < 0 ==> res == Err(InvalidPrefixLength)
    ensures q >= 0 && res.Err? ==> res.error == IncompatibleAddress
    ensures res.Ok? ==> Valid(res.value) && res.value.bytesPerSegment == s.bytesPerSegment
    ensures res.Ok? ==> EffectivePrefix(res.value) == if q < EffectivePrefix(s) then q else EffectivePrefix(s)
    ensures res.Ok? && !(s.prefixLength.Some? && s.prefixLength.value <= q) && q <= BitCount(s) ==>
      res.value.prefixLength == Some(q)
    ensures !(s.prefixLength.Some? && s.prefixLength.value <= q) ==> res == SetPrefixLength(s, q, zeroOnShrink)
  {
    if s.prefixLength.Some? && s.prefixLength.value <= q then
      Ok(s)
    else
      var res := SetPrefixLength(s, q, zeroOnShrink);
      assert res.Ok? ==> BitCount(res.value) == BitCount(s);
      res
  }

  /** Applying the same prefix length twice is applying it once. */
  lemma ApplyPrefixLengthIdempotent(s: Series, q: int, zeroOnShrink: bool)
    requires Valid(s) && ApplyPrefixLength(s, q, zeroOnShrink).Ok?
    ensures ApplyPrefixLength(ApplyPrefixLength(s, q, zeroOnShrink).value, q, zeroOnShrink)
            == ApplyPrefixLength(s, q, zeroOnShrink)
  {
    var t := ApplyPrefixLength(s, q, zeroOnShrink).value;
    if t.prefixLength.None? {
      SetPrefixLengthIdempotent(s, q, zeroOnShrink);
    }
  }

  /** A family that keeps the bits moved outside the prefix never sees
      applying a prefix length fail, and the segments never change. */
  lemma ApplyPrefixLengthKeepingBits(s: Series, q: nat)
    requires Valid(s)
    ensures ApplyPrefixLength(s, q, false).Ok?
    ensures ApplyPrefixLength(s, q, false).value.segments == s.segments
  {
    if !(s.prefixLength.Some? && s.prefixLength.value <= q) {
      if q < EffectivePrefix(s) {
        SetPrefixLengthKeepingBits(s, q);
      } else {
        ZeroBitsEmpty(s, EffectivePrefix(s), BitCount(s));
      }
    }
  }

  // ---------------------------------------------------------------------
  // Prefix block
  // ---------------------------------------------------------------------

  /** How many of the lowest bits of segment `i` are host bits under prefix
      length `p`. */
  function HostBits(bits: nat, i: nat, p: nat): (h: nat)
    ensures h <= bits
    ensures BandIn(bits, i, p, (i + 1) * bits) == BandPos(0, h)
  {
    assert (i + 1) * bits == i * bits + bits;
    bits - Clamp(p - i * bits, bits)
  }

  /** The block of the prefix: every host bit of every segment runs over all
      its values, the network bits kept; the series itself without a prefix. */
  function ToPrefixBlock(s: Series): (t: Series)
    requires Valid(s)
    ensures SameShape(s, t) && Valid(t)
    ensures s.prefixLength.None? ==> t == s
    ensures forall i :: 0 <= i < SegmentCount(s) ==>
      t.segments[i].lower <= s.segments[i].lower && s.segments[i].upper <= t.segments[i].upper
  {
    match s.prefixLength
    case None => s
    case Some(p) =>
      var n, bits := |s.segments|, BitsPerSegment(s);
      var segs := seq(n, i requires 0 <= i < n => BlockRange(s.segments[i], HostBits(bits, i, p)));
      assert ValidSegments(segs, s.bytesPerSegment) by {
        forall i | 0 <= i < n {
          BlockRangeValid(s.segments[i], s.bytesPerSegment, HostBits(bits, i, p));
        }
      }
      Series(segs, s.bytesPerSegment, s.prefixLength)
  }

  /** Each segment of the block holds exactly the values that agree, on the
      segment's network bits, with some value of the original segment. */
  lemma ToPrefixBlockExact(s: Series, i: nat)
    requires Valid(s) && s.prefixLength.Some? && i < SegmentCount(s)
    ensures forall x: nat :: Contains(ToPrefixBlock(s).segments[i], x) <==>
      InBlock(s.segments[i], HostBits(BitsPerSegment(s), i, s.prefixLength.value), x)
  {
    BlockRangeExact(s.segments[i], HostBits(BitsPerSegment(s), i, s.prefixLength.value));
  }

  /** Segments wholly inside the prefix are kept; segments wholly outside it
      run over every value. */
  lemma ToPrefixBlockSegments(s: Series, i: nat)
    requires Valid(s) && s.prefixLength.Some? && i < SegmentCount(s)
    ensures (i + 1) * BitsPerSegment(s) <= s.prefixLength.value ==> ToPrefixBlock(s).segments[i] == s.segments[i]
    ensures s.prefixLength.value <= i * BitsPerSegment(s) ==>
      ToPrefixBlock(s).segments[i] == Range(0, MaxValue(s.bytesPerSegment))
  {
    var p, bits := s.prefixLength.value, BitsPerSegment(s);
    if (i + 1) * bits <= p {
      assert (i + 1) * bits == i * bits + bits;
      assert HostBits(bits, i, p) == 0;
      BlockRangeNoHost(s.segments[i]);
    }
    if p <= i * bits {
      BlockRangeAllHost(s.segments[i], s.bytesPerSegment);
    }
  }

  /** The block of a block is the block itself. */
  lemma ToPrefixBlockIdempotent(s: Series)
    requires Valid(s)
    ensures ToPrefixBlock(ToPrefixBlock(s)) == ToPrefixBlock(s)
  {
    var t := ToPrefixBlock(s);
    if s.prefixLength.Some? {
      forall i | 0 <= i < SegmentCount(s)
        ensures ToPrefixBlock(t).segments[i] == t.segments[i]
      {
        BlockRangeIdempotent(s.segments[i], HostBits(BitsPerSegment(s), i, s.prefixLength.value));
      }
      assert ToPrefixBlock(t).segments == t.segments;
    }
  }
}
