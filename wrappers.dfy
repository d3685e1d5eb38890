/** The optional and failure-carrying values used throughout the model, standing
    in for C#'s `null` and for exceptions. */
module Wrappers {

  datatype Option<+T> = None | Some(value: T)

  datatype Result<+T, +E> = Success(value: T) | Failure(error: E)
}
