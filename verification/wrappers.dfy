/** Option and Result, used for the optional fields of a row and for the
    outcomes of the store's operations. */
module Wrappers {

  datatype Option<+T> = None | Some(value: T)

  datatype Result<+R, +E> = Success(value: R) | Failure(error: E)
}
