/** Outcomes of operations that may throw in the source: a value or the exception raised. */
module Results {

  datatype Option<+T> = None | Some(value: T)

  /** The exceptions the core throws. */
  datatype Error =
    | IllegalState(message: string)      // `IllegalStateException`, container underflow
    | IllegalArgument(message: string)   // `IllegalArgumentException`, unknown configuration name
    | IndexOutOfBounds                   // `IndexOutOfBoundsException` (an empty list, or its array subclass)

  datatype Result<+T> = Success(value: T) | Failure(error: Error)
}
