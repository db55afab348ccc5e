/** Failure-compatible wrappers shared by the model: `Option` stands for a
    nullable reference, `Result` for an operation that may throw. */
module Wrappers {

  datatype Option<+T> = None | Some(value: T)

  datatype Result<+R, +E> = Success(value: R) | Failure(error: E)
}
