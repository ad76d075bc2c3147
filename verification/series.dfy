/** A segment series: an ordered sequence of segments of one common width,
    a whole number of bytes, optionally carrying a prefix length. This module
    holds the accessors, the slicing and copying operations, the lower and
    upper projections and the segment, bit and byte reversals. */
module SegmentSeries {
  import opened Results
  import opened Bits
  import opened Segment

  datatype Series = Series(segments: seq<Range>, bytesPerSegment: nat, prefixLength: Option<nat>)

  /** The number of segments. */
  function SegmentCount(s: Series): (n: nat)
  {
    |s.segments|
  }

  /** The byte size shared by every segment: each segment value fits in `n`
      bytes. One field holds it, so all segments have the same size. */
  function BytesPerSegment(s: Series): (n: nat)
    ensures ValidSegments(s.segments, s.bytesPerSegment) ==>
      forall i :: 0 <= i < |s.segments| ==> s.segments[i].upper < Pow2(8 * n)
  {
    s.bytesPerSegment
  }

  /** The bit width shared by every segment: a whole number of bytes, and
      wide enough for each segment value. */
  function BitsPerSegment(s: Series): (b: nat)
    ensures b % 8 == 0 && b / 8 == BytesPerSegment(s)
    ensures ValidSegments(s.segments, s.bytesPerSegment) ==>
      forall i :: 0 <= i < |s.segments| ==> s.segments[i].upper < Pow2(b)
  {
    8 * s.bytesPerSegment
  }

  function BitCount(s: Series): (c: nat)
  {
    SegmentCount(s) * BitsPerSegment(s)
  }

  predicate ValidSegments(segs: seq<Range>, bytes: nat)
  {
    forall i :: 0 <= i < |segs| ==> ValidRange(segs[i], bytes)
  }

  /** What every series handed to the operations satisfies: segments of at
      least one byte, each a range of values of that width, and a prefix
      length no longer than the series. */
  predicate Valid(s: Series)
  {
    && s.bytesPerSegment >= 1
    && ValidSegments(s.segments, s.bytesPerSegment)
    && (s.prefixLength.Some? ==> s.prefixLength.value <= BitCount(s))
  }

  /** Two series with the same segment size and prefix length whose segments
      correspond one to one. */
  predicate SameShape(s: Series, t: Series)
  {
    |t.segments| == |s.segments| && t.bytesPerSegment == s.bytesPerSegment && t.prefixLength == s.prefixLength
  }

  /** Every segment of `s` holds one value. */
  predicate AllSingle(s: Series)
  {
    forall i :: 0 <= i < |s.segments| ==> IsSingle(s.segments[i])
  }

  // ---------------------------------------------------------------------
  // Indexed access
  // ---------------------------------------------------------------------

  /** The segment at `index`; IndexOutOfBounds for a negative index or one
      as large as the segment count. */
  function GetSegment(s: Series, index: int): (res: Result<Range>)
    ensures res.Ok? <==> 0 <= index < SegmentCount(s)
    ensures res.Err? ==> res.error == IndexOutOfBounds
    ensures res.Ok? ==> res.value == s.segments[index]
  {
    if 0 <= index < |s.segments| then Ok(s.segments[index]) else Err(IndexOutOfBounds)
  }

  /** A fresh sequence of all the segments, in order. */
  function Segments(s: Series): (segs: seq<Range>)
    ensures |segs| == SegmentCount(s)
    ensures forall i :: 0 <= i < |segs| ==> GetSegment(s, i) == Ok(segs[i])
  {
    s.segments
  }

  /** The part `p` of a prefix length that falls within the `len` bits
      starting at bit `start`: zero when the prefix ends before them, none
      when it ends after them. */
  function SectionPrefix(p: Option<nat>, start: nat, len: nat): (q: Option<nat>)
    ensures q.Some? ==> q.value <= len
  {
    match p
    case None => None
    case Some(n) =>
      if n <= start then Some(0)
      else if n - start <= len then Some(n - start)
      else None
  }

  /** The segments `index` .. `endIndex` - 1 as a series of their own;
      IndexOutOfBounds for a negative index, an end beyond the series, or an
      end before the start. */
  function GetSection(s: Series, index: int, endIndex: int): (res: Result<Series>)
    ensures res.Ok? <==> 0 <= index <= endIndex <= SegmentCount(s)
    ensures res.Err? ==> res.error == IndexOutOfBounds
    ensures res.Ok? ==> res.value.segments == s.segments[index..endIndex]
    ensures res.Ok? ==> res.value.bytesPerSegment == s.bytesPerSegment
    ensures res.Ok? ==> res.value.prefixLength
                        == SectionPrefix(s.prefixLength, index * BitsPerSegment(s), BitCount(res.value))
  {
    if 0 <= index <= endIndex <= |s.segments| then
      var segs := s.segments[index..endIndex];
      Ok(Series(segs, s.bytesPerSegment,
                SectionPrefix(s.prefixLength, index * BitsPerSegment(s), |segs| * BitsPerSegment(s))))
    else
      Err(IndexOutOfBounds)
  }

  /** The segments from `index` to the end; IndexOutOfBounds for a negative
      index or one past the end. */
  function GetSectionFrom(s: Series, index: int): (res: Result<Series>)
    ensures res.Ok? <==> 0 <= index <= SegmentCount(s)
    ensures res == GetSection(s, index, SegmentCount(s))
  {
    GetSection(s, index, |s.segments|)
  }

  /** The segment count bounds the indices getSegment accepts, is the length
      of the segment array, and is the length of every section. */
  lemma SegmentCountAgrees(s: Series, i: int, j: int)
    ensures |Segments(s)| == SegmentCount(s)
    ensures GetSegment(s, i).Ok? <==> 0 <= i < SegmentCount(s)
    ensures GetSection(s, i, j).Ok? ==> SegmentCount(GetSection(s, i, j).value) == j - i
  {
  }

  /** A section of a valid series is a valid series. */
  lemma SectionValid(s: Series, index: int, endIndex: int)
    requires Valid(s) && GetSection(s, index, endIndex).Ok?
    ensures Valid(GetSection(s, index, endIndex).value)
  {
  }

  /** Two series of the same segment size, one after the other: the prefix
      length is the first one's, or else the second one's counted from the
      start of the first. */
  function Append(a: Series, b: Series): (c: Series)
    requires a.bytesPerSegment == b.bytesPerSegment
    ensures c.segments == a.segments + b.segments && c.bytesPerSegment == a.bytesPerSegment
  {
    var p := if a.prefixLength.Some? then a.prefixLength
             else if b.prefixLength.Some? then Some(BitCount(a) + b.prefixLength.value)
             else None;
    Series(a.segments + b.segments, a.bytesPerSegment, p)
  }

  /** Splitting a valid series at any segment boundary and appending the two
      sections gives the series back, prefix length included. */
  lemma SectionsRejoin(s: Series, k: int)
    requires Valid(s) && 0 <= k <= SegmentCount(s)
    ensures GetSection(s, 0, k).Ok? && GetSection(s, k, SegmentCount(s)).Ok?
    ensures Append(GetSection(s, 0, k).value, GetSection(s, k, SegmentCount(s)).value) == s
  {
    var a, b := GetSection(s, 0, k).value, GetSection(s, k, SegmentCount(s)).value;
    assert a.segments + b.segments == s.segments;
    assert BitCount(a) == k * BitsPerSegment(s);
    assert BitCount(b) == (SegmentCount(s) - k) * BitsPerSegment(s);
    assert k * BitsPerSegment(s) + (SegmentCount(s) - k) * BitsPerSegment(s) == BitCount(s);
  }

  // ---------------------------------------------------------------------
  // Copying segments into a caller's array
  // ---------------------------------------------------------------------

  /** `dest` with all the segments copied to its start; IndexOutOfBounds when
      `dest` is shorter than the series. */
  function CopySegments(s: Series, dest: seq<Range>): (res: Result<seq<Range>>)
    ensures res.Ok? <==> |dest| >= SegmentCount(s)
    ensures res.Err? ==> res.error == IndexOutOfBounds
    ensures res.Ok? ==> |res.value| == |dest|
    ensures res.Ok? ==> res.value[..SegmentCount(s)] == s.segments
    ensures res.Ok? ==> res.value[SegmentCount(s)..] == dest[SegmentCount(s)..]
  {
    if |dest| >= |s.segments| then Ok(s.segments + dest[|s.segments|..]) else Err(IndexOutOfBounds)
  }

  /** `dest` with segments `start` .. `end` - 1 copied to position `index`
      onward; IndexOutOfBounds for any bound outside the series or `dest`. */
  function CopySegmentRange(s: Series, start: int, end: int, dest: seq<Range>, index: int): (res: Result<seq<Range>>)
    ensures res.Ok? <==> 0 <= start <= end <= SegmentCount(s) && 0 <= index && index + (end - start) <= |dest|
    ensures res.Err? ==> res.error == IndexOutOfBounds
    ensures res.Ok? ==> |res.value| == |dest|
    ensures res.Ok? ==> forall j :: 0 <= j < |dest| ==>
      res.value[j] == if index <= j < index + (end - start) then s.segments[start + j - index] else dest[j]
  {
    if 0 <= start <= end <= |s.segments| && 0 <= index && index + (end - start) <= |dest| then
      Ok(dest[..index] + s.segments[start..end] + dest[index + (end - start)..])
    else
      Err(IndexOutOfBounds)
  }

  /** Copying all segments is copying the range 0 .. count to position 0. */
  lemma CopySegmentsIsFullRange(s: Series, dest: seq<Range>)
    ensures CopySegments(s, dest) == CopySegmentRange(s, 0, SegmentCount(s), dest, 0)
  {
    if |dest| >= |s.segments| {
      var a, b := CopySegments(s, dest).value, CopySegmentRange(s, 0, SegmentCount(s), dest, 0).value;
      assert forall j :: 0 <= j < |dest| ==> a[j] == b[j];
      assert a == b;
    }
  }

  // ---------------------------------------------------------------------
  // Lower and upper projections
  // ---------------------------------------------------------------------

  /** Every segment reduced to its lowest value. */
  function Lower(s: Series): (t: Series)
    ensures SameShape(s, t) && AllSingle(t)
    ensures forall i :: 0 <= i < |s.segments| ==> t.segments[i].lower == s.segments[i].lower
    ensures AllSingle(s) ==> t == s
  {
    var t := Series(seq(|s.segments|, i requires 0 <= i < |s.segments| => Range(s.segments[i].lower, s.segments[i].lower)),
                    s.bytesPerSegment, s.prefixLength);
    assert AllSingle(s) ==> t.segments == s.segments;
    t
  }

  /** Every segment reduced to its highest value. */
  function Upper(s: Series): (t: Series)
    ensures SameShape(s, t) && AllSingle(t)
    ensures forall i :: 0 <= i < |s.segments| ==> t.segments[i].upper == s.segments[i].upper
    ensures AllSingle(s) ==> t == s
  {
    var t := Series(seq(|s.segments|, i requires 0 <= i < |s.segments| => Range(s.segments[i].upper, s.segments[i].upper)),
                    s.bytesPerSegment, s.prefixLength);
    assert AllSingle(s) ==> t.segments == s.segments;
    t
  }

  /** `values` holds one value drawn from each segment of `s`. */
  predicate Member(s: Series, values: seq<nat>)
  {
    |values| == |s.segments| && forall i :: 0 <= i < |values| ==> Contains(s.segments[i], values[i])
  }

  /** The values of a single-valued series. */
  function ValuesOf(s: Series): seq<nat>
  {
    seq(|s.segments|, i requires 0 <= i < |s.segments| => s.segments[i].lower)
  }

  /** The projections of a valid series are valid members of it, bounding
      every member segment by segment; a series equals its projections
      exactly when every segment holds one value. */
  lemma LowerUpperBound(s: Series, values: seq<nat>)
    requires Valid(s)
    ensures Valid(Lower(s)) && Valid(Upper(s))
    ensures Member(s, ValuesOf(Lower(s))) && Member(s, ValuesOf(Upper(s)))
    ensures Member(s, values) ==> forall i :: 0 <= i < |values| ==>
      ValuesOf(Lower(s))[i] <= values[i] <= ValuesOf(Upper(s))[i]
    ensures Lower(s) == s <==> AllSingle(s)
    ensures Upper(s) == s <==> AllSingle(s)
  {
  }

  // ---------------------------------------------------------------------
  // Reversals
  // ---------------------------------------------------------------------

  /** The segments in reverse order, each segment untouched. */
  function ReverseSegments(s: Series): (t: Series)
    ensures SameShape(s, t)
    ensures forall i :: 0 <= i < |s.segments| ==> t.segments[i] == s.segments[|s.segments| - 1 - i]
  {
    var n := |s.segments|;
    Series(seq(n, i requires 0 <= i < n => s.segments[n - 1 - i]), s.bytesPerSegment, s.prefixLength)
  }

  /** Reversing the segment order of a valid series never fails, keeps it
      valid, and reversing twice gives the series back. */
  lemma ReverseSegmentsInvolution(s: Series)
    requires Valid(s)
    ensures Valid(ReverseSegments(s))
    ensures ReverseSegments(ReverseSegments(s)) == s
  {
    assert ReverseSegments(ReverseSegments(s)).segments == s.segments;
  }

  /** The segment of `s` that lands at position `i` of a transformed series:
      the mirrored one when the segment order is reversed. */
  function SourceIndex(n: nat, i: nat, reversed: bool): (j: nat)
    requires i < n
  {
    if reversed then n - 1 - i else i
  }

  /** The bits reversed: within each byte when `perByte` (segments stay in
      place), otherwise across the whole series (segment order reversed and
      every segment's bits reversed). IncompatibleAddress, with no partial
      result, when any segment fails the reversibility rule. */
  function ReverseBits(s: Series, perByte: bool): (res: Result<Series>)
    requires Valid(s)
    ensures res.Ok? <==> forall i :: 0 <= i < SegmentCount(s) ==> BitReversible(s.segments[i], s.bytesPerSegment)
    ensures res.Err? ==> res.error == IncompatibleAddress
    ensures res.Ok? ==> SameShape(s, res.value) && Valid(res.value)
    ensures res.Ok? ==> forall i :: 0 <= i < SegmentCount(s) ==>
      IsImage(s.segments[SourceIndex(SegmentCount(s), i, !perByte)], res.value.segments[i],
              Rearrange(s.bytesPerSegment, BitOrder(perByte)))
  {
    var n, bytes := |s.segments|, s.bytesPerSegment;
    if forall i :: 0 <= i < n ==> BitReversible(s.segments[i], bytes) then
      Ok(Series(seq(n, i requires 0 <= i < n =>
                      ReverseRangeBits(s.segments[SourceIndex(n, i, !perByte)], bytes, perByte).value),
                bytes, s.prefixLength))
    else
      Err(IncompatibleAddress)
  }

  /** With whole-series reversal, or with one-byte segments, the rule is
      exact: reversal fails precisely when some segment's bit-reversed values
      do not form a contiguous interval. */
  lemma ReverseBitsFailsExactly(s: Series, perByte: bool)
    requires Valid(s) && (!perByte || s.bytesPerSegment == 1)
    ensures ReverseBits(s, perByte).Err? <==>
      exists i :: 0 <= i < SegmentCount(s) &&
        !ImageContiguous(s.segments[i], Rearrange(s.bytesPerSegment, BitOrder(perByte)))
  {
    forall i | 0 <= i < SegmentCount(s)
      ensures BitReversible(s.segments[i], s.bytesPerSegment) <==>
              ImageContiguous(s.segments[i], Rearrange(s.bytesPerSegment, BitOrder(perByte)))
    {
      if perByte {
        OneByteReversibleIffContiguous(s.segments[i]);
      } else {
        BitReversibleIffContiguous(s.segments[i], s.bytesPerSegment);
      }
    }
  }

  /** Reversing the bits of a reversed series gives the original back. */
  lemma ReverseBitsTwice(s: Series, perByte: bool)
    requires Valid(s) && ReverseBits(s, perByte).Ok?
    ensures ReverseBits(ReverseBits(s, perByte).value, perByte) == Ok(s)
  {
    var t := ReverseBits(s, perByte).value;
    var n := |s.segments|;
    forall i | 0 <= i < n
      ensures ReverseRangeBits(t.segments[i], s.bytesPerSegment, perByte) == Ok(s.segments[SourceIndex(n, i, !perByte)])
    {
      ReverseRangeBitsTwice(s.segments[SourceIndex(n, i, !perByte)], s.bytesPerSegment, perByte);
    }
    var u := ReverseBits(t, perByte).value;
    assert u.segments == s.segments;
  }

  /** The bytes reversed across the whole series: segment order reversed and
      every segment's bytes reversed. IncompatibleAddress, with no partial
      result, when a multi-byte segment ranges over less than all values. */
  function ReverseBytes(s: Series): (res: Result<Series>)
    requires Valid(s)
    ensures res.Ok? <==> forall i :: 0 <= i < SegmentCount(s) ==> ByteReversible(s.segments[i], s.bytesPerSegment)
    ensures res.Err? ==> res.error == IncompatibleAddress
    ensures res.Ok? ==> SameShape(s, res.value) && Valid(res.value)
    ensures res.Ok? ==> forall i :: 0 <= i < SegmentCount(s) ==>
      IsImage(s.segments[SourceIndex(SegmentCount(s), i, true)], res.value.segments[i], Rearrange(s.bytesPerSegment, ByteOrder))
  {
    ReverseBytesWith(s, true)
  }

  /** The bytes reversed within each segment, segments in place; fails as
      ReverseBytes does. */
  function ReverseBytesPerSegment(s: Series): (res: Result<Series>)
    requires Valid(s)
    ensures res.Ok? <==> forall i :: 0 <= i < SegmentCount(s) ==> ByteReversible(s.segments[i], s.bytesPerSegment)
    ensures res.Err? ==> res.error == IncompatibleAddress
    ensures res.Ok? ==> SameShape(s, res.value) && Valid(res.value)
    ensures res.Ok? ==> forall i :: 0 <= i < SegmentCount(s) ==>
      IsImage(s.segments[i], res.value.segments[i], Rearrange(s.bytesPerSegment, ByteOrder))
  {
    ReverseBytesWith(s, false)
  }

  function ReverseBytesWith(s: Series, reorder: bool): (res: Result<Series>)
    requires Valid(s)
    ensures res.Ok? <==> forall i :: 0 <= i < SegmentCount(s) ==> ByteReversible(s.segments[i], s.bytesPerSegment)
    ensures res.Err? ==> res.error == IncompatibleAddress
    ensures res.Ok? ==> SameShape(s, res.value) && Valid(res.value)
    ensures res.Ok? ==> forall i :: 0 <= i < SegmentCount(s) ==>
      IsImage(s.segments[SourceIndex(SegmentCount(s), i, reorder)], res.value.segments[i], Rearrange(s.bytesPerSegment, ByteOrder))
  {
    var n, bytes := |s.segments|, s.bytesPerSegment;
    if forall i :: 0 <= i < n ==> ByteReversible(s.segments[i], bytes) then
      Ok(Series(seq(n, i requires 0 <= i < n =>
                      ReverseRangeBytes(s.segments[SourceIndex(n, i, reorder)], bytes).value),
                bytes, s.prefixLength))
    else
      Err(IncompatibleAddress)
  }

  /** One-byte segments always byte-reverse: reversing the bytes of the
      series is reversing its segments, and reversing them per segment
      changes nothing. */
  lemma ReverseBytesOneByte(s: Series)
    requires Valid(s) && s.bytesPerSegment == 1
    ensures ReverseBytes(s) == Ok(ReverseSegments(s))
    ensures ReverseBytesPerSegment(s) == Ok(s)
  {
    forall i | 0 <= i < |s.segments| {
      ReverseRangeBytesOneByte(s.segments[i]);
    }
    assert ReverseBytes(s).value.segments == ReverseSegments(s).segments;
    assert ReverseBytesPerSegment(s).value.segments == s.segments;
  }

  /** Byte-reversing a byte-reversed series gives the original back, for both
      forms of byte reversal. */
  lemma ReverseBytesTwice(s: Series, reorder: bool)
    requires Valid(s) && ReverseBytesWith(s, reorder).Ok?
    ensures ReverseBytesWith(ReverseBytesWith(s, reorder).value, reorder) == Ok(s)
  {
    var t := ReverseBytesWith(s, reorder).value;
    var n := |s.segments|;
    forall i | 0 <= i < n
      ensures ReverseRangeBytes(t.segments[i], s.bytesPerSegment) == Ok(s.segments[SourceIndex(n, i, reorder)])
    {
      ReverseRangeBytesTwice(s.segments[SourceIndex(n, i, reorder)], s.bytesPerSegment);
    }
    var u := ReverseBytesWith(t, reorder).value;
    assert u.segments == s.segments;
  }

  // ---------------------------------------------------------------------
  // Worked examples
  // ---------------------------------------------------------------------

  /** The four one-byte segments 10, 0-255, 0, 1. */
  lemma FourSegmentExample()
    ensures var s := Series([Range(10, 10), Range(0, 255), Range(0, 0), Range(1, 1)], 1, None);
      && Valid(s)
      && SegmentCount(s) == 4
      && Lower(s).segments == [Range(10, 10), Range(0, 0), Range(0, 0), Range(1, 1)]
      && Upper(s).segments == [Range(10, 10), Range(255, 255), Range(0, 0), Range(1, 1)]
      && ReverseSegments(s).segments == [Range(1, 1), Range(0, 0), Range(0, 255), Range(10, 10)]
      && GetSegment(s, 4) == Err(IndexOutOfBounds)
  {
    var s := Series([Range(10, 10), Range(0, 255), Range(0, 0), Range(1, 1)], 1, None);
    assert Pow2(8) == 256;
    assert Lower(s).segments == [Range(10, 10), Range(0, 0), Range(0, 0), Range(1, 1)];
    assert Upper(s).segments == [Range(10, 10), Range(255, 255), Range(0, 0), Range(1, 1)];
    assert ReverseSegments(s).segments == [Range(1, 1), Range(0, 0), Range(0, 255), Range(10, 10)];
  }

  /** Bit reversal of one 8-bit segment at the edges of the rule: dropping
      either or both extreme values is allowed, dropping 0 and 1 is not. */
  lemma ReverseBitsBoundaries()
    ensures ReverseBits(Series([Range(1, 254)], 1, None), false) == Ok(Series([Range(1, 254)], 1, None))
    ensures ReverseBits(Series([Range(0, 254)], 1, None), false) == Ok(Series([Range(0, 254)], 1, None))
    ensures ReverseBits(Series([Range(1, 255)], 1, None), false) == Ok(Series([Range(1, 255)], 1, None))
    ensures ReverseBits(Series([Range(2, 255)], 1, None), false) == Err(IncompatibleAddress)
  {
    assert Pow2(8) == 256;
    OneSegmentReversal(Range(1, 254));
    OneSegmentReversal(Range(0, 254));
    OneSegmentReversal(Range(1, 255));
    var bad := Series([Range(2, 255)], 1, None);
    assert !BitReversible(bad.segments[0], 1);
  }

  /** A one-byte series of one ranging segment that passes the rule reverses
      to itself. */
  lemma OneSegmentReversal(r: Range)
    requires ValidRange(r, 1) && r.lower < r.upper && BitReversible(r, 1)
    ensures ReverseBits(Series([r], 1, None), false) == Ok(Series([r], 1, None))
  {
    var s := Series([r], 1, None);
    assert s.segments[0] == r;
    assert ReverseRangeBits(r, 1, false) == Ok(r);
    assert ReverseBits(s, false).value.segments == [r];
  }
}
