/** Failure-compatible result types shared by the whole model. */
module Wrappers {

  /** A value that may be absent, such as a Python name not yet bound. */
  datatype Option<+T> = None | Some(value: T)

  /** Either a computed value or the reason the computation raised. */
  datatype Result<+T, +E> = Success(value: T) | Failure(error: E) {

    predicate IsFailure() {
      Failure?
    }

    function PropagateFailure<U>(): Result<U, E>
      requires Failure?
    {
      Failure(error)
    }

    function Extract(): T
      requires Success?
    {
      value
    }
  }
}
