/** Option and Result, used for the decoder's failure and for the endpoint's two error kinds. */
module Wrappers {

  datatype Option<+T> = None | Some(value: T)

  datatype Result<+R, +E> = Success(value: R) | Failure(error: E)
}
