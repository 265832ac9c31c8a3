/** Option and Result, the failure-carrying values used across the model. */
module Wrappers {

  /** A value that may be absent (`null`/`undefined` in the modelled code). */
  datatype Option<+T> = None | Some(value: T)

  /** The outcome of an operation that either produces a value or fails with an error. */
  datatype Result<+T, +E> = Ok(value: T) | Err(error: E)
}
