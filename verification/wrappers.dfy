/** Failure-carrying result types shared by every module of the model. */
module Wrappers {

  /** A value that may be absent: SQL NULL, a missing catalog entry. */
  datatype Option<+T> = None | Some(value: T)

  /** The outcome of an operation that may raise an error (`ereport(ERROR, ...)`). */
  datatype Result<+T, +E> = Success(value: T) | Failure(error: E) {
    predicate IsFailure() {
      Failure?
    }

    function PropagateFailure<U>(): Result<U, E>
      requires Failure?
    {
      Failure(error)
    }

    function Extract(): T
      requires Success?
    {
      value
    }
  }
}
