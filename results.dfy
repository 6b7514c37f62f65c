/** The settled state of a promise: fulfilled with a value or rejected with an error.
    It supports Dafny's `:-` so that a chain of awaits reads as a chain of binds. */
module Results {

  datatype Result<+T, +E> = Success(value: T) | Failure(error: E) {

    predicate IsFailure() {
      Failure?
    }

    function PropagateFailure<U>(): Result<U, E>
      requires Failure?
    {
      Failure(error)
    }

    function Extract(): T
      requires Success?
    {
      value
    }
  }
}
