/** Option and Result: the error paths of the model (a missing row, an
    IndexError raised by indexing a split result). */
module Wrappers {

  datatype Option<+T> = None | Some(value: T)

  datatype Result<+R, +E> = Success(value: R) | Failure(error: E)
}
