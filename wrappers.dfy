/** Option, Result and the .NET exception kinds the modelled code throws. */
module Wrappers {
  datatype Option<T> = None | Some(value: T)

  /** The exception classes that the modelled code raises or lets escape. */
  datatype Exception =
    | ArgumentNull
    | ArgumentOutOfRange
    | IndexOutOfRange
    | Argument
    | InvalidOperation
    | InvalidProgram
    | NullReference
    | Overflow
    | Serialization   // the BSON reader rejected its input
    | External(code: int)  // raised by code outside the model (OS clipboard, sockets)

  /** A value, or the exception that replaced it. */
  datatype Result<T> = Ok(value: T) | Err(error: Exception)

  /** Completion of an action that returns nothing. */
  datatype Outcome = Pass | Fail(error: Exception)
}

/** Framework value types used across the model. */
module SystemTypes {
  /** A 128-bit globally unique identifier. */
  type Guid = g: nat | g < 0x1_0000_0000_0000_0000_0000_0000_0000_0000

  /** Guid.Empty. */
  const EmptyGuid: Guid := 0

  /** A point in time, in ticks. */
  type DateTime = int
}
