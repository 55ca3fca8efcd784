/** Option, Result and Outcome: the model's stand-ins for Java's null and exceptions. */
module Wrappers {

  datatype Option<+T> = None | Some(value: T)

  datatype Result<+T, +E> = Success(value: T) | Failure(error: E) {
    predicate IsFailure() {
      Failure?
    }

    function PropagateFailure<U>(): Result<U, E>
      requires Failure?
    {
      Failure(error)
    }

    function Extract(): T
      requires Success?
    {
      value
    }
  }

  /** The result of a void Java method that may throw: Pass, or Fail with what was thrown. */
  datatype Outcome<+E> = Pass | Fail(error: E)
}
