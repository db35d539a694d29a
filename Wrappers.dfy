/** Option and Result, used for C#'s null results and for exceptions the model makes explicit. */
module Wrappers {

  /** None stands for C#'s null. */
  datatype Option<+T> = None | Some(value: T)

  /** A value, or the fault that the source raises instead of producing it. */
  datatype Result<+R, +E> = Success(value: R) | Failure(error: E)
}
