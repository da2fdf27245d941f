/** The exceptions the message codec can raise, and a failure-compatible
    result type that carries either a value or one of them. */
module Results {

  /** Which of the two bounds checks of the sub-array copy rejected the call. */
  datatype RangeCheck =
    | StartIndex   // the start index lies outside the array
    | CopyBounds   // the start index plus the count runs past the end

  /** The .NET exceptions that the codec lets escape to its caller. */
  datatype Error =
    | IndexOutOfRange(check: RangeCheck)  // IndexOutOfRangeException
    | Overflow                            // OverflowException: negative array size
    | Format                              // FormatException: unparseable address text
    | Argument                            // ArgumentException: array of the wrong length
    | ArgumentOutOfRange                  // ArgumentOutOfRangeException: negative index

  /** A value, or none. */
  datatype Option<+T> = None | Some(value: T)

  /** Either a value or the exception that was thrown instead. */
  datatype Result<+T> = Success(value: T) | Failure(error: Error) {

    predicate IsFailure() {
      Failure?
    }

    function PropagateFailure<U>(): Result<U>
      requires Failure?
    {
      Failure(error)
    }

    function Extract(): T
      requires Success?
    {
      value
    }
  }
}
