/** Option and Result: the absent value and the error path of the modelled code. */
module Wrappers {

  /** A value that may be absent (JavaScript's `null`/`undefined` result). */
  datatype Option<+T> = None | Some(value: T)

  /** Either a value or the error that the modelled code would throw. */
  datatype Result<+T, +E> = Ok(value: T) | Err(error: E)
}
