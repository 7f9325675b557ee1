/** Failure-carrying return types: the model's counterpart of Rust's `Option` and `Result`. */
module Wrappers {

  datatype Option<+T> = None | Some(value: T)

  /** `Result<T, E>`: either a value or the error that stopped the computation. */
  datatype Result<+T, +E> = Success(value: T) | Failure(error: E)

  /** `Result<(), E>`: a check that passes or fails with an error. */
  datatype Outcome<+E> = Pass | Fail(error: E)
}
