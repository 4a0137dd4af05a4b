/** Failure-carrying datatypes shared by the model. */
module Wrappers {

  /** A value that may be absent (Python's None, a NaN cell, a failed parse). */
  datatype Option<+T> = None | Some(value: T)

  /** The outcome of an operation that either succeeds or fails with an error value. */
  datatype Result<+R, +E> = Ok(value: R) | Err(error: E)
}
