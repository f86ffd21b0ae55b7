/** Error kinds and result wrappers shared by the storage layers. */
module Errors {

  /** The failure conditions the storage engine reports. The source signals
      "read past the end", "index capacity exhausted" and "index empty" all
      with the same end-of-file value, so they are one kind here as well. */
  datatype Error =
    | EOF                          // no more data (read past end, index full, index empty)
    | IOFailure                    // a failing write, open or sync of the file system
    | NegativeOffset               // a positional read at an offset below zero
    | OffsetOutOfRange(offset: int) // Log.Read found no segment covering the offset
    | TruncateRemovedAll           // Log.Truncate would leave no segment

  /** A value or an error, as a Go function returning `(T, error)`. */
  datatype Result<+T> = Ok(value: T) | Err(error: Error)

  /** Success or an error, as a Go function returning only `error`. */
  datatype Outcome = Pass | Fail(error: Error)
}
