/** Failure-carrying results used throughout the model. */
module Wrappers {

  /** An optional value: a parse that may not succeed. */
  datatype Option<+T> = None | Some(value: T)

  /** A computation that either produces a value or fails with an error. */
  datatype Result<+R, +E> = Ok(value: R) | Err(error: E)
}
