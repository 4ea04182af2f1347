/** Failure-compatible wrappers shared by the other modules. */
module Wrappers {

  /** A value that may be absent: a regular-expression match result, say. */
  datatype Option<+T> = None | Some(value: T)

  /** The outcome of an operation that throws in the source: a value or the error raised. */
  datatype Result<+T, +E> = Ok(value: T) | Err(error: E)
}
