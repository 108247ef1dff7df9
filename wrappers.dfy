/** Option and Result, the failure-carrying values used throughout the model. */
module Wrappers {

  /** A value that may be absent: Python's `None` versus a real value. */
  datatype Option<+T> = None | Some(value: T)

  /** The outcome of a validation: the value accepted, or the error raised. */
  datatype Result<+R, +E> = Success(value: R) | Failure(error: E)
}
