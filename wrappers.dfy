/** Failure-compatible result types shared by the whole model: the C# code
    reports failures by throwing, which the model turns into values. */
module Wrappers {

  datatype Option<+T> = None | Some(value: T)

  /** A computation that either produced a value or failed with `error`. */
  datatype Result<+T, +E> = Success(value: T) | Failure(error: E) {
    predicate IsFailure() {
      Failure?
    }

    function PropagateFailure<U>(): Result<U, E>
      requires Failure?
    {
      Failure(error)
    }

    function Extract(): T
      requires Success?
    {
      value
    }
  }

  /** A computation with no value that either passed or failed with `error`. */
  datatype Outcome<+E> = Pass | Fail(error: E)
}
