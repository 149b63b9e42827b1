/** Option and Result, for optional inputs and for the errors the MEX entry point
    raises. */
module Wrappers {

  datatype Option<+T> = None | Some(value: T)

  datatype Result<+R, +E> = Success(value: R) | Failure(error: E)
}
