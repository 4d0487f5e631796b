/** Failure-carrying result types used throughout the model: Go's `(value, error)`
    pairs and `error` returns become `Result` and `Option` values. */
module Wrappers {

  datatype Option<+T> = None | Some(value: T)

  datatype Result<+R, +E> = Success(value: R) | Failure(error: E)
}
