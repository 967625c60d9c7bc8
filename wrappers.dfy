/** Option and Result wrappers used across the model. */
module Wrappers {

  /** A value that may be absent (the outcome of a parser that can reject its input). */
  datatype Option<+T> = None | Some(value: T)

  /** The outcome of an operation that either succeeds or raises an error to its caller. */
  datatype Result<+T, +E> = Ok(value: T) | Err(error: E)
}
