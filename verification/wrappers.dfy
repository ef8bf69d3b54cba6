/** Failure-carrying values used throughout the model: a missing value
    (Python's `None`) and an outcome that is either a value or an error
    (a raised exception). */
module Wrappers {

  datatype Option<+T> = None | Some(value: T)

  datatype Result<+R, +E> = Success(value: R) | Failure(error: E)
}
