/** Failure-carrying wrappers used by the model: an optional value (a Java
    reference that may be null) and a result that is either a value or an
    error (a Java method that may throw). */
module Wrappers {

  datatype Option<+T> = None | Some(value: T)

  datatype Result<+R, +E> = Success(value: R) | Failure(error: E)
}
