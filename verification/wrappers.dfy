/** Failure-carrying result types shared by the configuration parsers. */
module Wrappers {

  /** A value that may be absent; `None` plays the role of `undefined`. */
  datatype Option<+T> = None | Some(value: T)

  /** Either a parsed value or the error that parsing raised. */
  datatype Result<+R, +E> = Success(value: R) | Failure(error: E)
}
