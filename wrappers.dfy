/** Optional values and exceptions, as returned values. */
module Wrappers {

  /** A value that may be absent (a JavaScript `null`, `undefined` or failed match). */
  datatype Option<+T> = None | Some(value: T)

  /** The outcome of an operation that may throw: a value, or the error it throws. */
  datatype Result<+T, +E> = Ok(value: T) | Fail(error: E)
}
