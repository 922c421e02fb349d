/** Option and Result, used for C#'s nullable values and thrown exceptions. */
module Wrappers {

  /** A value that may be absent: C#'s `null` / `int?`. */
  datatype Option<+T> = None | Some(value: T)

  /** The outcome of an operation that either returns a value or throws. */
  datatype Result<+T, +E> = Ok(value: T) | Err(error: E)
}
