/** Failure-compatible wrappers used across the model: an optional value
    (a nullable field, an absent option) and a success-or-error result
    (a value returned or an exception thrown). */
module Wrappers {

  /** A value that may be absent: JavaScript `null`/`undefined` become `None`. */
  datatype Option<+T> = None | Some(value: T) {

    /** The wrapped value, or `default` when absent (the `??` operator). */
    function GetOr(default: T): T {
      match this
      case Some(v) => v
      case None => default
    }
  }

  /** The outcome of an operation that either returns a value or throws. */
  datatype Result<+R, +E> = Success(value: R) | Failure(error: E) {

    predicate IsFailure() {
      Failure?
    }
  }
}
