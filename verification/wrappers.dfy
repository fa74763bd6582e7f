/** Failure-carrying datatypes shared by the model: an optional value, a value-or-error
    result, and a pass-or-error outcome. They stand for Go's `(T, error)` return pairs. */
module Wrappers {

  datatype Option<+T> = None | Some(value: T)

  datatype Result<+T, +E> = Success(value: T) | Failure(error: E)

  datatype Outcome<+E> = Pass | Fail(error: E)
}
