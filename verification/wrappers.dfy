/** Optional values and failure-carrying results, used where the TypeScript
    code has `undefined` or throws. */
module Wrappers {

  /** A value that may be absent (`T | undefined`). */
  datatype Option<+T> = None | Some(value: T) {

    /** The value, or `default` when absent (`x ?? default`). */
    function GetOr(default: T): T {
      match this
      case Some(v) => v
      case None => default
    }
  }

  /** Either a value or the error that aborted the computation. */
  datatype Result<+T, +E> = Success(value: T) | Failure(error: E)
}
