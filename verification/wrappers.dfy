/** Failure-compatible wrappers used by the model: an optional value and a
    success-or-error result, standing in for Python's `None` and exceptions. */
module Wrappers {

  /** A value that may be absent. */
  datatype Option<+T> = None | Some(value: T) {

    /** Returns the carried value, or `default` when there is none. */
    function GetOr(default: T): T {
      match this
      case Some(v) => v
      case None => default
    }
  }

  /** The outcome of a computation that may raise: either its value or the error. */
  datatype Result<+R, +E> = Success(value: R) | Failure(error: E) {

    /** True if this is a failure. */
    predicate IsFailure() {
      Failure?
    }

    /** Re-types a failure so that it can be propagated by `:-`. */
    function PropagateFailure<U>(): Result<U, E>
      requires Failure?
    {
      Failure(error)
    }

    /** Returns the value of a success. */
    function Extract(): R
      requires Success?
    {
      value
    }
  }
}
