/** Failure-carrying wrappers shared by every module of the model. */
module Wrappers {

  /** Python's `None` or a value. */
  datatype Option<+T> = None | Some(value: T)

  /** A value, or the exception that replaced it. */
  datatype Result<+T, +E> = Ok(value: T) | Err(error: E)
}
