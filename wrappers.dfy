/** Option and Result, the wrappers used by the rest of the model. */
module Wrappers {

  /** A value that may be absent: JavaScript's `T | null`. */
  datatype Option<+T> = None | Some(value: T)

  /** A value or the error a call threw. */
  datatype Result<+R, +E> = Success(value: R) | Failure(error: E)
}
