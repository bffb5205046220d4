/**
 * Two small datatypes used throughout the model: `Option`, a value that may be
 * absent (JavaScript's `null`/`undefined`), and `Result`, the value or the error
 * of an operation that may throw (a network fetch).
 */
module Wrappers {

  datatype Option<+T> = None | Some(value: T) {

    /** The wrapped value, or `default` when there is none (JavaScript's `x || default`). */
    function GetOr(default: T): T {
      match this
      case Some(v) => v
      case None => default
    }
  }

  datatype Result<+R, +E> = Success(value: R) | Failure(error: E)
}
