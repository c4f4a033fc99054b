/** Optional values and outcomes that can fail, used wherever the source may
    read an absent property or throw. */
module Wrappers {

  datatype Option<+T> = None | Some(value: T) {
    /** The value, or `default` when there is none. */
    function GetOr(default: T): T {
      match this
      case Some(v) => v
      case None => default
    }
  }

  /** The result of an operation that either completes with a value or throws. */
  datatype Result<+R, +E> = Success(value: R) | Failure(error: E)

  /** The result of an operation that either completes or throws, with no value. */
  datatype Outcome<+E> = Pass | Fail(error: E)
}
