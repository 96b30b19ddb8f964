/** Option and Result values for Python's `None` and for the exceptions the handler lets escape. */
module Wrappers {

  datatype Option<+T> = None | Some(value: T)

  /** A value, or the exception that ended the computation. */
  datatype Result<+R, +E> = Success(value: R) | Failure(error: E)
}
