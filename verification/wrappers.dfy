/** Failure-compatible result and option types shared by the graph builder. */
module Wrappers {

  datatype Option<+T> = None | Some(value: T)

  /** Either a built value or the error that stopped construction. */
  datatype Result<+T, +E> = Success(value: T) | Failure(error: E) {
    predicate IsFailure() {
      Failure?
    }

    function PropagateFailure<U>(): Result<U, E>
      requires Failure?
    {
      Failure(error)
    }

    function Extract(): T
      requires Success?
    {
      value
    }
  }
}
