/** Failure-compatible result types used wherever the source throws or returns null. */
module Wrappers {

  /** A value that may be absent: the model of a nullable reference or a failed lookup. */
  datatype Option<+T> = None | Some(value: T)

  /** Either a computed value or the error the source would throw instead. */
  datatype Result<+R, +E> = Success(value: R) | Failure(error: E) {

    predicate IsFailure() {
      Failure?
    }

    function PropagateFailure<U>(): Result<U, E>
      requires Failure?
    {
      Failure(error)
    }

    function Extract(): R
      requires Success?
    {
      value
    }
  }
}
