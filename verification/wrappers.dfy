/** Failure-compatible Option and Result types used by every component.
    A `Failure` stands for a Python exception that aborts the run. */
module Wrappers {

  datatype Option<+T> = None | Some(value: T) {
    function GetOr(default: T): T {
      match this
      case Some(v) => v
      case None => default
    }
  }

  datatype Result<+R, +E> = Success(value: R) | Failure(error: E) {
    predicate IsFailure() {
      Failure?
    }

    function PropagateFailure<U>(): Result<U, E>
      requires Failure?
    {
      Failure(error)
    }

    function Extract(): R
      requires Success?
    {
      value
    }
  }

  datatype Outcome<+E> = Pass | Fail(error: E) {
    predicate IsFailure() {
      Fail?
    }

    function PropagateFailure<U>(): Result<U, E>
      requires Fail?
    {
      Failure(error)
    }
  }

  /** A Python `assert` (or any check that raises): passes or fails with `error`. */
  function Need<E>(condition: bool, error: E): (o: Outcome<E>)
    ensures o.Pass? <==> condition
  {
    if condition then Pass else Fail(error)
  }
}
