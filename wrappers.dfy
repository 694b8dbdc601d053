/** Optional values and results with an error, used where the source returns null or throws. */
module Wrappers {

  /** A value that may be absent (the source's null). */
  datatype Option<+T> = None | Some(value: T)

  /** The outcome of an operation that can fail (the source throws or reports an error). */
  datatype Result<+T, +E> = Ok(value: T) | Err(error: E)
}
