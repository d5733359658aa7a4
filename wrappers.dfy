/** Option and Result, the two failure-carrying shapes used throughout the model. */
module Wrappers {

  datatype Option<+T> = None | Some(value: T)

  /** A Python call that either returns a value or raises; `error` is the exception's message. */
  datatype Result<+R, +E> = Success(value: R) | Failure(error: E)
}
