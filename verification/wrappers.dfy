/** Optional values and results with an error, for nullable columns and raised exceptions. */
module Wrappers {

  /** A value that may be missing: a null cell of a joined table, or an unset setting. */
  datatype Option<+T> = None | Some(value: T) {

    /** The wrapped value, or `default` when there is none. */
    function GetOr(default: T): T {
      match this
      case Some(v) => v
      case None => default
    }
  }

  /** The outcome of an operation that either returns a value or raises an error. */
  datatype Result<+T, +E> = Success(value: T) | Failure(error: E)
}
