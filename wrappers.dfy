/** Option and Result, the two failure-compatible wrappers used throughout the model. */
module Wrappers {

  datatype Option<+T> = None | Some(value: T) {
    predicate IsFailure() { None? }

    function PropagateFailure<U>(): Option<U>
      requires None?
    {
      None
    }

    function Extract(): T
      requires Some?
    {
      value
    }

    function GetOr(default: T): T {
      match this
      case Some(v) => v
      case None => default
    }
  }

  datatype Result<+R, +E> = Success(value: R) | Failure(error: E) {
    predicate IsFailure() { Failure? }

    function PropagateFailure<U>(): Result<U, E>
      requires Failure?
    {
      Failure(error)
    }

    function Extract(): R
      requires Success?
    {
      value
    }
  }
}
