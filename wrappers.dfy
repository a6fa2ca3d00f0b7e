/** Optional values and results with an error message. */
module Wrappers {

  /** A value that may be absent (JavaScript's `undefined` or `null`). */
  datatype Option<+T> = None | Some(value: T)

  /** The outcome of an operation that may throw. */
  datatype Result<+T> = Ok(value: T) | Err(message: string)
}
