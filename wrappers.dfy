/** Failure-carrying result types shared by the whole model. A thrown JavaScript
    `Error`, a Go `error` return and a Go `panic` are all modelled as values. */
module Wrappers {

  datatype Option<+T> = None | Some(value: T)

  /** A computation that either yields a value or fails with the source's message. */
  datatype Result<+T> = Ok(value: T) | Err(msg: string) {
    predicate IsFailure() { Err? }

    function PropagateFailure<U>(): Result<U>
      requires Err?
    {
      Err(msg)
    }

    function Extract(): T
      requires Ok?
    {
      value
    }
  }

  /** A computation that only succeeds or fails (a `void` function that may throw). */
  datatype Outcome = Pass | Fail(msg: string)
}
