/** Option and Result, used for the places where the Python code raises or
    leaves a value unset instead of returning one. */
module Wrappers {

  datatype Option<+T> = None | Some(value: T)

  datatype Result<+R, +E> = Success(value: R) | Failure(error: E)
}
