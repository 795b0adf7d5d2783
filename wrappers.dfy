/** Failure-carrying results shared by every module of the model.
    The source reports failures by throwing .NET exceptions; here each
    operation that can throw returns a `Result` whose `Err` case names the
    exception class it would have thrown. */
module Wrappers {

  /** The exception classes the modelled code throws. */
  datatype Exception =
    | ArgumentNull
    | ArgumentOutOfRange
    | Argument
    | Overflow
    | DivideByZero
    | InvalidOperation
    | EndOfStream
    | ShiftJisEncoding
    | BadZipFileFormat
    | ExpansionSyntaxError
    | ExpansionBadArgument

  datatype Option<+T> = None | Some(value: T)

  datatype Result<+T> = Ok(value: T) | Err(error: Exception) {
    predicate IsFailure() { Err? }

    function PropagateFailure<U>(): Result<U>
      requires Err?
    {
      Err(error)
    }

    function Extract(): T
      requires Ok?
    {
      value
    }
  }
}
