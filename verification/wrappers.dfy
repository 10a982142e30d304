/** Failure-carrying return types used across the model in place of the
    exceptions the Python code raises. */
module Wrappers {

  /** A value that may be absent, as `str.rfind` returning -1. */
  datatype Option<+T> = None | Some(value: T)

  /** Either a computed value or the error the source would raise. */
  datatype Result<+T, +E> = Ok(value: T) | Err(error: E)
}
