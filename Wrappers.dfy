/** Option and Result, and the exceptions of the .NET code as values. */
module Wrappers {

  datatype Option<+T> = None | Some(value: T)

  /** The exceptions the modelled code throws, one constructor per .NET exception type. The message is kept where the
      source distinguishes two throws of the same type. */
  datatype Error =
    | ArgumentNull(param: string)
    | Argument(message: string)
    | ArgumentOutOfRange
    | IndexOutOfRange
    | InvalidOperation(message: string)
    | InvalidData(message: string)
    | IOFailure
    | ObjectDisposed
    | NullReference

  datatype Result<+T> = Ok(value: T) | Err(error: Error)

  /** The outcome of an operation that returns nothing of interest (the source's `return this`). */
  datatype Outcome = Pass | Fail(error: Error)
}
