/** Failure-carrying result types shared by the whole model: the C++ code
    throws or reports an error code where these return a failure value. */
module Wrappers {

  datatype Option<+T> = None | Some(value: T)

  datatype Result<+T, +E> = Ok(value: T) | Err(error: E) {
    predicate IsFailure() { Err? }

    function PropagateFailure<U>(): Result<U, E>
      requires Err?
    {
      Err(error)
    }

    function Extract(): T
      requires Ok?
    {
      value
    }
  }

  /** Success without a value, or a failure. */
  datatype Outcome<+E> = Pass | Fail(error: E)
}
