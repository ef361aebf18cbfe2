/** Optional values and error-or-value results, as used by the paginator. */
module Wrappers {

  /** An optional field of the options object: absent (`undefined`) or present. */
  datatype Option<+T> = None | Some(value: T) {

    /** The present value, or `default` when absent (JavaScript's `??`). */
    function GetOr(default: T): T {
      match this
      case Some(v) => v
      case None => default
    }
  }

  /** Either the value a call returns or the error it throws. */
  datatype Result<+R, +E> = Success(value: R) | Failure(error: E)
}
