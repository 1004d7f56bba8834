/** Failure-compatible wrappers used by the analyzer model. */
module Wrappers {

  /** A value that may be absent: a parse that did not succeed. */
  datatype Option<+T> = None | Some(value: T)

  /** The outcome of a whole run: the collected value, or the error that aborted it. */
  datatype Result<+R, +E> = Success(value: R) | Failure(error: E)
}
