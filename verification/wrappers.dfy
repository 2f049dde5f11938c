/** Failure-compatible value holders shared by every module of the model. */
module Wrappers {

  /** An optional value: the Python model's `None` or a value. */
  datatype Option<+T> = None | Some(value: T)

  /** The outcome of an operation that either produces a value or reports why it could not. */
  datatype Result<+T, +E> = Success(value: T) | Failure(error: E)
}
