/** Option and Result, the outcome types the rest of the model uses. */
module Wrappers {

  datatype Option<+T> = None | Some(value: T)

  /** A result that `:-` can propagate: the error case short-circuits. */
  datatype Result<+T, +E> = Success(value: T) | Failure(error: E) {
    predicate IsFailure() {
      Failure?
    }

    function PropagateFailure<U>(): Result<U, E>
      requires Failure?
    {
      Failure(error)
    }

    function Extract(): T
      requires Success?
    {
      value
    }
  }
}
