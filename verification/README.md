# Address segment series in Dafny

This project models the address segment series of the IPAddress library.
A segment series is an ordered run of segments of one width, a whole number of
bytes. Each segment holds a contiguous range of values. The series may carry a
prefix length, which counts bits from the most significant bit of the first
segment.

The model is pure: a series is an immutable value, and every operation returns
a new series or an error. The modules are:

- `Results`: `Option`, the error kinds and `Result`.
- `Bits`: little-endian bit strings, the three bit rearrangements (all bits,
  the bits of each byte, the byte order) and their involution proofs.
- `BitFields`: a value split into the bits above a band, the band, and the
  bits below it. Also the arithmetic of prefix blocks.
- `Segment`: one segment as a range `Range(lower, upper)`.
  - Bit reversal and byte reversal with the interface's reversibility rules.
  - Zeroing a band of bits in every value.
  - Widening a range to its prefix block.
  - Each transformation has its exact image as a set of values: `IsImage`
    says the result range holds precisely the transformed values of the input
    range.
- `SegmentSeries`: the series value, indexed access, sections, copies, the
  lower/upper projections and the reversals of a whole series.
- `PrefixLength`: prefix-block, remove, set, adjust (by bits and by segment)
  and apply.
  - The zero-or-keep policy for bits that leave the prefix depends on the
    address family. It is the boolean `zeroOnShrink`.
  - A series without a prefix length acts, in these operations, as if its
    prefix covered every bit.

Two conditions are proved equal to the contiguity they stand for:

- The bit-reversal rule the interface states holds exactly when the reversed
  values form one contiguous range. This is
  `Segment.BitReversibleIffContiguous` for whole-segment reversal, and
  `Segment.OneByteReversibleIffContiguous` for per-byte reversal of one-byte
  segments. For per-byte reversal of wider segments the rule is only
  sufficient.
- The interface states no rule for zeroing bits of a ranging segment. The
  model's band condition for it holds exactly when the zeroed values stay
  contiguous. This is `Segment.BandClearableIffContiguous`.

The segment count, the byte size and the bit width are stored once per
series: `Series` has a single `bytesPerSegment` field. So every segment has
the same size, and that size is a whole number of bytes, by construction.

A valid series (`SegmentSeries.Valid`) is one built by the address creator:

- segments of at least one byte;
- each range within the segment width;
- a prefix length no larger than the bit count.

Operations take validity as a precondition and keep it.

## Model

| member | source | states |
|---|---|---|
| SegmentSeries.SegmentCountAgrees | IPAddress/src/inet/ipaddr/AddressSegmentSeries.java:42-46 | the segment count is the bound on the indices getSegment accepts, the length of the segment array, and j - i for the section i..j |
| SegmentSeries.BytesPerSegment | IPAddress/src/inet/ipaddr/AddressSegmentSeries.java:54-58 | every segment value of a valid series fits in that many bytes |
| SegmentSeries.BitsPerSegment | IPAddress/src/inet/ipaddr/AddressSegmentSeries.java:48-52 | the segment width is a multiple of 8 whose byte count is BytesPerSegment, and every segment value of a valid series fits in it |
| SegmentSeries.GetSectionFrom | IPAddress/src/inet/ipaddr/AddressSegmentSeries.java:60-67 | the section from `index` succeeds exactly for 0 ≤ index ≤ count and equals the section up to the segment count |
| SegmentSeries.GetSection | IPAddress/src/inet/ipaddr/AddressSegmentSeries.java:69-77 | succeeds exactly when 0 ≤ index ≤ endIndex ≤ count, otherwise IndexOutOfBounds; holds exactly the segments index..endIndex-1 and the part of the prefix inside them |
| SegmentSeries.SectionValid | IPAddress/src/inet/ipaddr/AddressSegmentSeries.java:69-77 | a section of a valid series is a valid series |
| SegmentSeries.SectionsRejoin | IPAddress/src/inet/ipaddr/AddressSegmentSeries.java:60-77 | splitting at any segment boundary and appending the two sections rebuilds the series, prefix length included |
| SegmentSeries.GetSegment | IPAddress/src/inet/ipaddr/AddressSegmentSeries.java:79-86 | succeeds exactly for 0 ≤ index < count, with that segment; IndexOutOfBounds for a negative index or one as large as the count |
| SegmentSeries.CopySegments | IPAddress/src/inet/ipaddr/AddressSegmentSeries.java:95-100 | fails with IndexOutOfBounds exactly when the array is shorter than the series; otherwise the array starts with the segments and the rest is untouched |
| SegmentSeries.CopySegmentRange | IPAddress/src/inet/ipaddr/AddressSegmentSeries.java:102-109 | succeeds exactly when the source bounds lie in the series and the target slot fits the array; the slot receives segments start..end-1 in order and every other entry is untouched |
| SegmentSeries.CopySegmentsIsFullRange | IPAddress/src/inet/ipaddr/AddressSegmentSeries.java:95-109 | copying all segments is copying the range 0..count to position 0 |
| SegmentSeries.Segments | IPAddress/src/inet/ipaddr/AddressSegmentSeries.java:111-116 | a sequence of count segments whose entry i is what GetSegment returns for i |
| SegmentSeries.Lower | IPAddress/src/inet/ipaddr/AddressSegmentSeries.java:118-125 | single-valued series of the same shape holding each segment's lowest value; the series itself when already single-valued |
| SegmentSeries.Upper | IPAddress/src/inet/ipaddr/AddressSegmentSeries.java:127-134 | single-valued series of the same shape holding each segment's highest value; the series itself when already single-valued |
| SegmentSeries.LowerUpperBound | IPAddress/src/inet/ipaddr/AddressSegmentSeries.java:118-134 | both projections are valid members of the series that bound every member segment by segment; a series equals either projection exactly when every segment is single-valued |
| SegmentSeries.FourSegmentExample | IPAddress/src/inet/ipaddr/AddressSegmentSeries.java:118-171 | the series 10, 0-255, 0, 1 has four segments, lower 10.0.0.1, upper 10.255.0.1 and reversed order 1, 0, 0-255, 10 |
| SegmentSeries.ReverseSegments | IPAddress/src/inet/ipaddr/AddressSegmentSeries.java:164-171 | never fails; segment i of the result is segment n-1-i of the input |
| SegmentSeries.ReverseSegmentsInvolution | IPAddress/src/inet/ipaddr/AddressSegmentSeries.java:164-171 | the result is valid and reversing twice gives the series back |
| Segment.ReverseRangeBits | IPAddress/src/inet/ipaddr/AddressSegmentSeries.java:173-184 | succeeds exactly when the range is single-valued or misses at most the smallest and/or largest value, else IncompatibleAddress; the result range is exactly the set of reversed values |
| Segment.BitReversibleIffContiguous | IPAddress/src/inet/ipaddr/AddressSegmentSeries.java:173-184 | for reversal of all bits of a segment of any width, the rule holds exactly when the reversed values form one contiguous range |
| Segment.OneByteReversibleIffContiguous | IPAddress/src/inet/ipaddr/AddressSegmentSeries.java:173-184 | for one-byte segments the rule is exact for per-byte reversal too |
| Segment.ReverseRangeBitsTwice | IPAddress/src/inet/ipaddr/AddressSegmentSeries.java:173-184 | a reversed segment reverses back to the original |
| SegmentSeries.ReverseBits | IPAddress/src/inet/ipaddr/AddressSegmentSeries.java:173-184 | succeeds exactly when every segment passes the rule, with no partial result; per-byte reversal keeps segment order, whole reversal mirrors it; each result segment is exactly the reversed values of its source segment |
| SegmentSeries.ReverseBitsFailsExactly | IPAddress/src/inet/ipaddr/AddressSegmentSeries.java:173-184 | for whole reversal, or one-byte segments, failure happens exactly when some segment's reversed values are not contiguous |
| SegmentSeries.ReverseBitsTwice | IPAddress/src/inet/ipaddr/AddressSegmentSeries.java:173-184 | reversing the bits of a reversed series gives the original |
| SegmentSeries.ReverseBitsBoundaries | IPAddress/src/inet/ipaddr/AddressSegmentSeries.java:173-184 | in one 8-bit segment, 1-254, 0-254 and 1-255 reverse to themselves and 2-255 fails |
| SegmentSeries.OneSegmentReversal | IPAddress/src/inet/ipaddr/AddressSegmentSeries.java:173-184 | a ranging one-byte segment that passes the rule reverses to itself |
| Segment.ReverseRangeBytes | IPAddress/src/inet/ipaddr/AddressSegmentSeries.java:186-205 | succeeds exactly for one-byte segments, single values or the full range, else IncompatibleAddress; the result range is exactly the byte-reversed values |
| Segment.ReverseRangeBytesTwice | IPAddress/src/inet/ipaddr/AddressSegmentSeries.java:186-205 | a byte-reversed segment byte-reverses back to the original |
| Segment.ReverseRangeBytesOneByte | IPAddress/src/inet/ipaddr/AddressSegmentSeries.java:186-205 | byte reversal of a one-byte segment changes nothing |
| SegmentSeries.ReverseBytes | IPAddress/src/inet/ipaddr/AddressSegmentSeries.java:186-195 | succeeds exactly when every segment passes the byte rule; segment order mirrored and each result segment exactly the byte-reversed values of its source |
| SegmentSeries.ReverseBytesPerSegment | IPAddress/src/inet/ipaddr/AddressSegmentSeries.java:197-205 | as ReverseBytes with segment order kept |
| SegmentSeries.ReverseBytesWith | IPAddress/src/inet/ipaddr/AddressSegmentSeries.java:186-205 | the shared definition of both byte reversals, with the same all-or-nothing failure rule |
| SegmentSeries.ReverseBytesOneByte | IPAddress/src/inet/ipaddr/AddressSegmentSeries.java:186-205 | with one-byte segments both byte reversals succeed: the whole one is ReverseSegments and the per-segment one is the identity |
| SegmentSeries.ReverseBytesTwice | IPAddress/src/inet/ipaddr/AddressSegmentSeries.java:186-205 | byte-reversing twice gives the original back, for both forms |
| Segment.BlockRange | IPAddress/src/inet/ipaddr/AddressSegmentSeries.java:207-212 | the block range contains the original range |
| Segment.BlockRangeExact | IPAddress/src/inet/ipaddr/AddressSegmentSeries.java:207-212 | the block holds exactly the values that share their network bits with some value of the segment |
| Segment.BlockRangeValid | IPAddress/src/inet/ipaddr/AddressSegmentSeries.java:207-212 | the block of a valid segment stays within the segment width |
| Segment.BlockRangeIdempotent | IPAddress/src/inet/ipaddr/AddressSegmentSeries.java:207-212 | widening a block again changes nothing |
| Segment.BlockRangeNoHost | IPAddress/src/inet/ipaddr/AddressSegmentSeries.java:207-212 | with no host bits the block is the segment itself |
| Segment.BlockRangeAllHost | IPAddress/src/inet/ipaddr/AddressSegmentSeries.java:207-212 | with only host bits the block is every value of the width |
| PrefixLength.HostBits | IPAddress/src/inet/ipaddr/AddressSegmentSeries.java:207-212 | the host bits of segment i are the lowest h bits, exactly the segment's bit positions at or past the prefix |
| PrefixLength.ToPrefixBlock | IPAddress/src/inet/ipaddr/AddressSegmentSeries.java:207-212 | a valid series of the same shape whose segments contain the originals; the series itself without a prefix |
| PrefixLength.ToPrefixBlockExact | IPAddress/src/inet/ipaddr/AddressSegmentSeries.java:207-212 | each block segment holds exactly the values that agree on the network bits with some original value |
| PrefixLength.ToPrefixBlockSegments | IPAddress/src/inet/ipaddr/AddressSegmentSeries.java:207-212 | segments wholly in the prefix are kept and segments wholly past it span every value |
| PrefixLength.ToPrefixBlockIdempotent | IPAddress/src/inet/ipaddr/AddressSegmentSeries.java:207-212 | the prefix block of a prefix block is itself |
| PrefixLength.RemovePrefixLength | IPAddress/src/inet/ipaddr/AddressSegmentSeries.java:214-221 | no prefix in the result; without a prefix the series is unchanged; with prefix p the segments are those with positions p..end zeroed |
| PrefixLength.RemovePrefixLengthZeroesHost | IPAddress/src/inet/ipaddr/AddressSegmentSeries.java:214-221 | after removal the old host bits are zero in every value and segments wholly in the old prefix are unchanged |
| PrefixLength.RemoveIsSetPastEnd | IPAddress/src/inet/ipaddr/AddressSegmentSeries.java:214-259 | removing the prefix is setting a length one past the end, whatever the family policy |
| PrefixLength.NextBoundary | IPAddress/src/inet/ipaddr/AddressSegmentSeries.java:223-232 | a multiple of the segment width: the first one strictly past the prefix, or the last one strictly before it (zero stays zero) |
| PrefixLength.BoundaryPastEnd | IPAddress/src/inet/ipaddr/AddressSegmentSeries.java:223-232 | the next boundary leaves the series exactly when stepping forward from the very end |
| PrefixLength.AdjustPrefixBySegment | IPAddress/src/inet/ipaddr/AddressSegmentSeries.java:223-232 | the prefix moves to the adjacent segment boundary, or is removed when stepping forward from the end |
| PrefixLength.AdjustPrefixBySegmentShrinking | IPAddress/src/inet/ipaddr/AddressSegmentSeries.java:223-232 | moving to the previous boundary zeroes exactly the bits moved outside the prefix when the family zeroes them (failing exactly when that zeroing fails), and otherwise never fails and keeps every segment |
| PrefixLength.AdjustPrefixBySegmentGrowing | IPAddress/src/inet/ipaddr/AddressSegmentSeries.java:223-232 | moving to the next boundary zeroes exactly the bits moved inside the prefix |
| PrefixLength.AdjustPrefixLength | IPAddress/src/inet/ipaddr/AddressSegmentSeries.java:234-244 | an adjustment of zero returns the series unchanged; otherwise the new prefix is the old one plus the adjustment, floored at zero, and removed when past the end; only IncompatibleAddress can be reported |
| PrefixLength.AdjustPrefixLengthGrowing | IPAddress/src/inet/ipaddr/AddressSegmentSeries.java:234-244 | a non-negative adjustment zeroes exactly the bits moved inside the prefix, up to the end of the series |
| PrefixLength.AdjustPrefixLengthShrinking | IPAddress/src/inet/ipaddr/AddressSegmentSeries.java:234-244 | a negative adjustment zeroes exactly the bits moved outside the prefix when the family zeroes them (failing exactly when that zeroing fails), and for a family that keeps the bits never fails and keeps every segment |
| Segment.ClearRange | IPAddress/src/inet/ipaddr/AddressSegmentSeries.java:246-259 | succeeds exactly when the band condition holds, else IncompatibleAddress; the result range is exactly the values with the band zeroed |
| Segment.BandClearableIffContiguous | IPAddress/src/inet/ipaddr/AddressSegmentSeries.java:246-259 | the band condition holds exactly when the zeroed values form one contiguous range |
| Segment.ClearRangeNoBand | IPAddress/src/inet/ipaddr/AddressSegmentSeries.java:246-259 | zeroing an empty band leaves the segment as it is |
| Segment.ClearRangeZeroes | IPAddress/src/inet/ipaddr/AddressSegmentSeries.java:246-259 | every zeroed value has a clear band and agrees with some original value on every other bit |
| PrefixLength.BandIn | IPAddress/src/inet/ipaddr/AddressSegmentSeries.java:246-259 | the band of segment i holds exactly the bits whose series positions lie in the zeroed span |
| PrefixLength.BandOutside | IPAddress/src/inet/ipaddr/AddressSegmentSeries.java:246-259 | a segment that the span does not reach gets an empty band |
| PrefixLength.ZeroBits | IPAddress/src/inet/ipaddr/AddressSegmentSeries.java:246-259 | succeeds exactly when every segment's band condition holds, with no partial result; each result segment is exactly its original values with those positions zeroed |
| PrefixLength.ZeroBitsFailsExactly | IPAddress/src/inet/ipaddr/AddressSegmentSeries.java:246-259 | zeroing fails exactly when some segment's zeroed values are not contiguous |
| PrefixLength.ZeroBitsEffect | IPAddress/src/inet/ipaddr/AddressSegmentSeries.java:246-259 | segments outside the span are unchanged and every value inside has the zeroed band clear |
| PrefixLength.ZeroBitsEmpty | IPAddress/src/inet/ipaddr/AddressSegmentSeries.java:246-259 | an empty span changes nothing and cannot fail |
| PrefixLength.EffectivePrefix | IPAddress/src/inet/ipaddr/AddressSegmentSeries.java:246-259 | the series' own prefix length when it has one, the bit count when it has none, and never more than the bit count |
| PrefixLength.ZeroedSpan | IPAddress/src/inet/ipaddr/AddressSegmentSeries.java:246-259 | growing zeroes the positions moved inside the prefix, up to the end; shrinking zeroes the positions moved outside only under the family policy |
| PrefixLength.SetPrefixLength | IPAddress/src/inet/ipaddr/AddressSegmentSeries.java:246-259 | the result has prefix q, or none past the end; its segments are the input with the span zeroed; a negative length is InvalidPrefixLength |
| PrefixLength.SetPrefixLengthGrowing | IPAddress/src/inet/ipaddr/AddressSegmentSeries.java:246-259 | lengthening the prefix, under either policy, fails exactly when zeroing the bits between the old and new length (capped at the bit count) fails, and otherwise yields exactly those zeroed segments |
| PrefixLength.SetPrefixLengthShrinking | IPAddress/src/inet/ipaddr/AddressSegmentSeries.java:246-259 | shortening the prefix zeroes exactly the bits moved outside it when the family zeroes them (failing exactly when that zeroing fails), and for a family that keeps the bits never fails and keeps every segment |
| PrefixLength.SetPrefixLengthKeepingBits | IPAddress/src/inet/ipaddr/AddressSegmentSeries.java:246-259 | shrinking without the zeroing policy never fails and keeps every segment |
| PrefixLength.SetPrefixLengthSame | IPAddress/src/inet/ipaddr/AddressSegmentSeries.java:246-259 | setting a series' own prefix length changes nothing |
| PrefixLength.SetPrefixLengthIdempotent | IPAddress/src/inet/ipaddr/AddressSegmentSeries.java:246-259 | setting the same length twice is setting it once |
| PrefixLength.SetPrefixLengthKeepsNetwork | IPAddress/src/inet/ipaddr/AddressSegmentSeries.java:246-259 | segments wholly before both the old and the new prefix are unchanged |
| PrefixLength.ApplyPrefixLength | IPAddress/src/inet/ipaddr/AddressSegmentSeries.java:261-275 | the series itself when its prefix is already no longer; otherwise exactly setPrefixLength(q) under the same policy, so the bits moved outside the prefix are zeroed when the family zeroes them, and the result has prefix length q when q is within the series |
| PrefixLength.ApplyPrefixLengthIdempotent | IPAddress/src/inet/ipaddr/AddressSegmentSeries.java:261-275 | applying the same length twice is applying it once |
| PrefixLength.ApplyPrefixLengthKeepingBits | IPAddress/src/inet/ipaddr/AddressSegmentSeries.java:261-275 | for a family that keeps the bits, applying a non-negative length never fails and leaves the segments unchanged |

## Left out

- getNetwork (line 40): the per-family network object is informational, and no operation here consults it.
- getSegmentStrings, toCanonicalString and toCompressedString (lines 88-93, 152-162): the string grammars belong to each address family, not to this interface.
- getIterable, iterator and segmentsIterator (lines 136-150): enumeration of the individual values is not modelled. Its one stated rule is that the series it yields carry no prefix length.
- IPAddress/src/inet/ipaddr/format/AddressCreator.java and IPAddress/src/inet/ipaddr/format/AddressStringDivisionSeries.java are not part of this model. The creator's checks appear only as `SegmentSeries.Valid`.
- Counts and lengths are unbounded naturals, not Java `int`. The bit counts of real series are small, but the `adjustment` of adjustPrefixLength and the `prefixLength` of setPrefixLength and applyPrefixLength are arbitrary Java `int`s: a sum such as prefix plus adjustment can wrap around in Java, but never does in the model.
- The prefix length of a reversed series is the prefix length of the input. The interface does not say what reversal does to it.
- SegmentSeries.ReverseBits: for per-byte reversal of multi-byte segments, the rule (taken from line 179) is sufficient but not necessary for contiguity. For example, 0-255 in a 16-bit segment has a contiguous per-byte image, yet the rule rejects it. The exact characterisation is proved only for whole-segment reversal and for one-byte segments.
- Segment.ReverseRangeBytes: follows the wording of lines 189-190 (one byte, a single value, or the full range). This is stricter than contiguity; for example, 1-65535 in a 16-bit segment has a contiguous byte-reversed image.
- Zeroing bits of a ranging segment can leave a set of values with gaps. The interface declares no exception for the prefix operations. Because a segment range cannot represent such a set, the model reports IncompatibleAddress in that case, and proves this happens exactly when the zeroed values are not contiguous.
- removePrefixLength follows the comment at line 217: the old host bits become zero.
- A negative prefix length passed to setPrefixLength or applyPrefixLength is reported as InvalidPrefixLength. The interface does not say what happens.
- adjustPrefixLength floors a negative result at zero. The interface does not say what happens below zero.
- getSection(index) also rejects an index past the end. getSection(index, endIndex) also rejects an end before the start. The comments at lines 63 and 72 list only the other bounds.
- The zero-or-keep policy of each address family is the parameter `zeroOnShrink`. The families themselves are not modelled.
