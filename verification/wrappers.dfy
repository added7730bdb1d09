/** Option and Result types used for nullable values and for operations that can fail. */
module Wrappers {

  /** A value that may be absent (a Java reference that may be null). */
  datatype Option<+T> = None | Some(value: T)

  /** The outcome of an operation that either produces a value or fails with an error. */
  datatype Result<+T, +E> = Ok(value: T) | Err(error: E) {

    predicate IsFailure() {
      Err?
    }

    function PropagateFailure<U>(): Result<U, E>
      requires Err?
    {
      Err(error)
    }

    function Extract(): T
      requires Ok?
    {
      value
    }
  }
}
