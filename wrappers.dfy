/** Option and Result, the two failure-carrying shapes the handlers use. */
module Wrappers {

  /** A value that may be absent: JavaScript's `null`/`undefined` or a missing row. */
  datatype Option<+T> = None | Some(value: T) {
    function GetOr(default: T): T {
      match this
      case Some(v) => v
      case None => default
    }
  }

  /** The outcome of a step that can fail with an error of type E. */
  datatype Result<+R, +E> = Success(value: R) | Failure(error: E)
}
