/** Value types shared by the models of the response-streaming runtime client
    and of the text-template base class. */
module Common {

  /** An unsigned 8-bit value, as in a .NET `byte[]`. */
  newtype byte = x: int | 0 <= x < 0x100

  /** A .NET reference that may be null. */
  datatype Option<+T> = None | Some(value: T)

  /** The exceptions the modelled members raise. */
  datatype Exception =
    | NotSupported                      // System.NotSupportedException
    | ArgumentNull(paramName: string)   // System.ArgumentNullException

  /** The outcome of a member that returns a value or throws. */
  datatype Result<+T> = Success(value: T) | Failure(error: Exception)

  /** The outcome of a `void` member that may throw. */
  datatype Outcome = Pass | Fail(error: Exception)
}
