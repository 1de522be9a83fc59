/** Failure-compatible result types and the Java exceptions the modelled code can raise. */
module Outcomes {

  /** The exceptions (and the one System.exit) that end a start-up or a command send. */
  datatype Exception =
    | ArrayIndexOutOfBounds     // `split("=")[k]` on an array of at most k elements
    | StringIndexOutOfBounds    // `substring(begin)` with begin past the end of the string
    | InvalidStartArguments     // the IllegalStateException of throwInvalidStartArgumentsException
    | SystemExit(status: int)   // System.exit(status), treated as an error outcome
    | IOFailure                 // an IOException from a reader or a writer
    | UncheckedIO               // an IOException rethrown as a RuntimeException

  datatype Option<+T> = None | Some(value: T)

  datatype Result<+T, +E> = Ok(value: T) | Err(error: E) {
    predicate IsFailure() { Err? }

    function PropagateFailure<U>(): Result<U, E>
      requires Err?
    {
      Err(error)
    }

    function Extract(): T
      requires Ok?
    {
      value
    }
  }

  datatype Outcome<+E> = Pass | Fail(error: E)
}
