/** Failure-carrying results: the model's stand-in for .NET exceptions. */
module Wrappers {

  datatype Option<+T> = None | Some(value: T)

  /** The value of an operation that may throw instead of returning. */
  datatype Result<+R, +E> = Success(value: R) | Failure(error: E)

  /** The outcome of a check that returns nothing but may throw. */
  datatype Outcome<+E> = Pass | Fail(error: E)
}

/** The .NET exceptions the solvers throw, with the argument they are built from. */
module Errors {

  datatype Error =
    | ArgumentNull(paramName: string)   // System.ArgumentNullException(paramName)
    | Argument(message: string)         // System.ArgumentException(message)
    | InvalidOperation(message: string) // System.InvalidOperationException(message)
    | IndexOutOfRange                   // raised by the runtime on a bad array index
    | NullReference                     // raised by the runtime on a member access through null

  const ExitNotFound := Argument("Exit was not found.")
  const StartIsWall := Argument("Start position is -1.")
  const NotStarted := InvalidOperation("Path finding algorithm was not started.")
  const PathNotFound := InvalidOperation("Path was not found.")
}
