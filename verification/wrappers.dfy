/** Failure-compatible wrappers used throughout the model: `Option` for Python's
    `None`-or-value results and `Result` for operations that can raise. */
module Wrappers {

  datatype Option<+T> = None | Some(value: T) {

    predicate IsFailure() {
      None?
    }

    function PropagateFailure<U>(): Option<U>
      requires None?
    {
      None
    }

    function Extract(): T
      requires Some?
    {
      value
    }
  }

  datatype Result<+R, +E> = Success(value: R) | Failure(error: E) {

    predicate IsFailure() {
      Failure?
    }

    function PropagateFailure<U>(): Result<U, E>
      requires Failure?
    {
      Failure(error)
    }

    function Extract(): R
      requires Success?
    {
      value
    }

    /** The success value, or `default` on failure. */
    function GetOr(default: R): R {
      match this
      case Success(v) => v
      case Failure(_) => default
    }
  }
}
