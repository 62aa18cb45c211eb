/** Failure-compatible result types shared by both utilities. */
module Wrappers {

  /** A value that may be absent: a missing dictionary key, a session that could not be built. */
  datatype Option<+T> = None | Some(value: T)

  /** The outcome of a step that can raise: `Success` carries the value, `Failure` the exception. */
  datatype Result<+R, +E> = Success(value: R) | Failure(error: E) {

    predicate IsFailure() {
      Failure?
    }

    function PropagateFailure<U>(): Result<U, E>
      requires Failure?
    {
      Failure(error)
    }

    function Extract(): R
      requires Success?
    {
      value
    }
  }
}
