/** The optional value and the success-or-error value used throughout the model.
    `Option` stands for a Go value that may be nil; `Result` for a Go `(value, error)` pair
    in which exactly one side is meaningful. */
module Wrappers {

  datatype Option<+T> = None | Some(value: T)

  datatype Result<+T, +E> = Success(value: T) | Failure(error: E)
}
