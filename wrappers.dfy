/** Failure-compatible result types shared by the model. */
module Wrappers {

  /** A value that may be absent: Python's `None` or a missing entry. */
  datatype Option<+T> = None | Some(value: T)

  /** The outcome of a step that can raise: `Err` stands for the exception. */
  datatype Result<+T, +E> = Ok(value: T) | Err(error: E) {
    predicate IsFailure() { Err? }

    function PropagateFailure<U>(): Result<U, E>
      requires Err?
    {
      Err(error)
    }

    function Extract(): T
      requires Ok?
    {
      value
    }
  }
}
