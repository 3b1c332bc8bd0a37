/** Results and the exceptions of the engine, as values. */
module Outcomes {

  datatype Option<+T> = None | Some(value: T)

  /** Each exception the engine can raise, named after the Java exception class. */
  datatype Error =
    | MalformedCommand        // MalformedCommandException
    | MalformedMethod         // MalformedMethodException
    | KeyAlreadyExists        // KeyAlreadyExistsException: a command name registered twice
    | CommandNotFound         // CommandNotFoundException
    | NumberFormat            // NumberFormatException from the integer and floating-point parsers
    | IllegalArgument         // IllegalArgumentException: no enum member matches
    | StringIndexOutOfBounds  // charAt(1) on the one-character token "-"
    | ArrayIndexOutOfBounds   // toCharArray()[0] on the empty token
    | IndexOutOfBounds        // List.get on a missing index

  /** A value or the exception that stopped its computation. */
  datatype Result<+T> = Success(value: T) | Failure(error: Error) {
    predicate IsFailure() { Failure? }

    function PropagateFailure<U>(): Result<U>
      requires Failure?
    {
      Failure(error)
    }

    function Extract(): T
      requires Success?
    {
      value
    }
  }

  /** The outcome of an operation that returns nothing (a Java `void` method). */
  datatype Outcome = Pass | Fail(error: Error)
}
