/** Option and Result, the two failure-compatible wrappers the model uses in
    place of Java's null and of thrown exceptions. */
module Wrappers {

  datatype Option<+T> = None | Some(value: T)

  /** A value, or the reason why there is none; usable with `:-`. */
  datatype Result<+T, +E> = Success(value: T) | Failure(error: E) {

    predicate IsFailure() {
      Failure?
    }

    function PropagateFailure<U>(): Result<U, E>
      requires Failure?
    {
      Failure(error)
    }

    function Extract(): T
      requires Success?
    {
      value
    }
  }
}
