/** The optional-value and success-or-error wrappers used by the time model and the clock-string parser. */
module Wrappers {
  datatype Option<+T> = None | Some(value: T)

  datatype Result<+R, +E> = Success(value: R) | Failure(error: E)
}
