/** Option and Result, for the values the source leaves out (`None`) and for
    its exceptions (a `Failure` carries what was raised). */
module Wrappers {
  datatype Option<+T> = None | Some(value: T)

  datatype Result<+T, +E> = Success(value: T) | Failure(error: E)
}
