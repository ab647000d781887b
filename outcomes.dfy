/** Exceptions that the array code throws, as values. */
module Outcomes {

  /**
   * The exceptions the core throws: the two it raises itself, with their
   * messages, and the bounds failure of a buffer read or write at an
   * offset outside the buffer.
   */
  datatype Error =
    | IllegalArgument(message: string)
    | UnsupportedOperation(message: string)
    | IndexOutOfBounds(index: int)

  /** The value a method returns, or the exception it throws. */
  datatype Result<+T> = Ok(value: T) | Err(error: Error)

  /** Outcome of a method that returns nothing but may throw. */
  datatype Status = Done | Failed(error: Error)
}
