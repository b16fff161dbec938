/** Option and Result, the shapes in which the model reports "no row" and
    the source's error paths. */
module Wrappers {

  datatype Option<+T> = None | Some(value: T)

  datatype Result<+R, +E> = Success(value: R) | Failure(error: E)
}
