/** Failure-compatible wrappers used across the model: `Option` stands in
    for a nullable reference and `Result` for an operation that may throw. */
module Wrappers {

  /** `None` plays the role of a null reference. */
  datatype Option<+T> = None | Some(value: T)

  /** `Failure` plays the role of an exception thrown by the operation. */
  datatype Result<+R, +E> = Success(value: R) | Failure(error: E)
}
