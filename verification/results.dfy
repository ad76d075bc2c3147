/** Optional values, the two failures a segment series operation can report,
    and the result type that carries either a value or one of those failures. */
module Results {

  /** An optional value, used for the prefix length of a series. */
  datatype Option<+T> = None | Some(value: T)

  /** The failures of the segment-series operations: an index or bound
      outside the series, a range that cannot be transformed into a single
      contiguous range, and a negative prefix length. */
  datatype AddressError = IndexOutOfBounds | IncompatibleAddress | InvalidPrefixLength

  /** Either the value an operation produced or the failure it reported. */
  datatype Result<+T> = Ok(value: T) | Err(error: AddressError)
}
