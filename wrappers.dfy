/** The optional-value and result wrappers shared by every module of the model. */
module Wrappers {

  datatype Option<+T> = None | Some(value: T)

  /** A value or the error that the Python code raises instead of returning. */
  datatype Result<+R, +E> = Success(value: R) | Failure(error: E)
}
