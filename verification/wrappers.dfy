/** Optional values and success/failure results, standing in for Python's
    `None` and for the exceptions the bots raise. */
module Wrappers {

  /** A value that may be absent (Python's `Optional[T]`). */
  datatype Option<+T> = None | Some(value: T) {

    /** The value, or `default` when absent (Python's `d.get(k, default)`). */
    function GetOr(default: T): T {
      match this
      case Some(v) => v
      case None => default
    }
  }

  /** The outcome of an operation that can raise: a value, or the error message. */
  datatype Result<+R, +E> = Success(value: R) | Failure(error: E)
}
