/** Shared vocabulary of the pgh3 model: the H3 index, optional values,
    and the outcome of an operation that can raise a PostgreSQL ERROR. */
module Types {

  /** A 64-bit unsigned H3 cell index (`uint64_t`); the extension only
      compares it with 0 and copies it. The value 0 is H3's "no index": H3
      routines leave it in buffer slots they do not fill and return it for
      strings they cannot parse. */
  newtype H3Index = x: int | 0 <= x < 0x1_0000_0000_0000_0000

  datatype Option<+T> = None | Some(value: T)

  /** `Err` stands for `ereport(ERROR, …)`: the call is abandoned and the
      error is reported to the client. */
  datatype Result<+T> = Ok(value: T) | Err(error: Error)

  /** The ERRORs the extension raises, one constructor per report site. */
  datatype Error =
    | InvalidIndexString(text: string)     // a string that H3 parses as 0
    | IndexArrayNotOneDimensional          // compact: ndim != 1
    | IndexArrayNotText                    // compact: element type is not text
    | NullIndexElement(position: int)      // compact: a null array element
    | RingsArrayBadDimension               // polyfill: interior rings with ndim > 1
    | RingsArrayNotPolygon                 // polyfill: element type is not polygon
    | NullRing(position: int)              // polyfill: a null interior ring
    | CompactFailed                        // H3 compact returned non-zero
    | ConfigUnparsable(setting: string)    // memory setting is not an integer
    | LimitExceeded(size: nat, limit: nat) // allocation above the memory setting
    | AllocRequestTooLarge(size: nat)      // plain palloc0 above MaxAllocSize
}
