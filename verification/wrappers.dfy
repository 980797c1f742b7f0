/** Option and Result datatypes shared by every module of the model. */
module Wrappers {

  /** A value that may be absent: a missing request field, a JavaScript `null`. */
  datatype Option<+T> = None | Some(value: T)

  /** The outcome of an operation that either produces a value or throws. */
  datatype Result<+R, +E> = Success(value: R) | Failure(error: E)
}
