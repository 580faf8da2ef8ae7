/** Failure-compatible wrappers shared by the queue model. */
module Wrappers {

  /** An optional value; `None` stands for JavaScript's `undefined`. */
  datatype Option<+T> = None | Some(value: T)

  /** Either a value or the error that aborted the operation. */
  datatype Result<+R, +E> = Success(value: R) | Failure(error: E)
}
