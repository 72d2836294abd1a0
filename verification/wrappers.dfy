/** Failure-carrying values used in place of Python's `None` and exceptions. */
module Wrappers {

  /** `None` or a present value. */
  datatype Option<+T> = None | Some(value: T) {
    /** The value, or `default` when absent. */
    function GetOr(default: T): T {
      match this
      case Some(v) => v
      case None => default
    }
  }

  /** A successful value or an error, standing for a raised exception. */
  datatype Result<+R, +E> = Success(value: R) | Failure(error: E)
}
