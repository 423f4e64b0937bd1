/** Failure-compatible wrappers used throughout the model.
    - Option<T> stands for a value that may be absent (a fetch that did not succeed).
    - Result<T, E> carries either a value or the error a Python exception would raise;
      it supports Dafny's `:-` propagation, which mirrors an uncaught exception
      unwinding to the caller. */
module Wrappers {

  datatype Option<+T> = None | Some(value: T) {

    /** The value if present, `default` otherwise. */
    function GetOr(default: T): T {
      match this
      case Some(v) => v
      case None => default
    }
  }

  datatype Result<+T, +E> = Success(value: T) | Failure(error: E) {

    predicate IsFailure() {
      Failure?
    }

    function PropagateFailure<U>(): Result<U, E>
      requires Failure?
    {
      Failure(error)
    }

    function Extract(): T
      requires Success?
    {
      value
    }

    /** The value on success, `default` on failure. */
    function GetOr(default: T): T {
      match this
      case Success(v) => v
      case Failure(_) => default
    }
  }
}
