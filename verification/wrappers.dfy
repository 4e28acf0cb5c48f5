/** Failure-compatible results used wherever the Python code raises or asserts. */
module Wrappers {

  datatype Option<+T> = None | Some(value: T)

  /** The kinds of failure the modelled code can signal. `Diverges` stands for a
      loop of the source that never ends (a random retry with nothing left to pick). */
  datatype Error =
    | ValueError
    | AssertionError
    | IndexError
    | IllegalAction
    | Diverges

  datatype Result<+T> = Ok(value: T) | Err(error: Error) {

    predicate IsFailure() {
      Err?
    }

    function PropagateFailure<U>(): Result<U>
      requires Err?
    {
      Err(error)
    }

    function Extract(): T
      requires Ok?
    {
      value
    }
  }
}
