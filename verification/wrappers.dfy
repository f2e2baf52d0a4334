/** Optional values and the outcome of an operation that may raise. */
module Wrappers {

  /** A value that may be absent (Python's `None`). */
  datatype Option<+T> = None | Some(value: T)

  /** The value an expression evaluates to, or the exception it raises. */
  datatype Result<+T, +E> = Ok(value: T) | Err(error: E)
}
