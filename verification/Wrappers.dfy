/** Option and Result, shared by every module of the project. */
module Wrappers {

  datatype Option<+T> = None | Some(value: T)

  /** A value or the reason why there is none; `:-` passes a reason on. */
  datatype Result<+T, +E> = Ok(value: T) | Err(error: E) {
    predicate IsFailure() { Err? }

    function PropagateFailure<U>(): Result<U, E>
      requires Err?
    {
      Err(error)
    }

    function Extract(): T
      requires Ok?
    {
      value
    }
  }
}
