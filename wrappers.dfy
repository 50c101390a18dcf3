/** Optional values and results with an error case, shared by every module. */
module Wrappers {

  /** A value that may be absent (Python's `None`). */
  datatype Option<+T> = None | Some(value: T)

  /** The outcome of a validation step: a value, or the error the source raises. */
  datatype Result<+T, +E> = Ok(value: T) | Err(error: E)
}
