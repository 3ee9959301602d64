/** Failure-carrying values used across the model: a nullable column or an
    absent row is an `Option`, a statement that throws is a `Result`. */
module Wrappers {

  datatype Option<+T> = None | Some(value: T)

  datatype Result<+T, +E> = Success(value: T) | Failure(error: E)
}
