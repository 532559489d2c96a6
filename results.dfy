/** Failure-carrying results shared by every module of the store.
    Each Java exception the core can raise is one `Error` constructor. */
module Results {

  datatype Option<+T> = None | Some(value: T)

  /** The exceptions (checked and unchecked) that the modelled code raises or lets escape. */
  datatype Error =
    | BufferOverflow                 // java.nio.BufferOverflowException: put past the limit
    | BufferUnderflow                // java.nio.BufferUnderflowException: get past the limit
    | IllegalArgument                // Buffer.position(p) with p < 0 or p > limit; negative file position
    | NegativeArraySize              // new byte[n] with n < 0
    | IndexOutOfBounds               // List.get / array index out of range
    | NullPointer                    // a method called on null
    | ClassCast                      // (Long) o, (String) o, ... on a value of another class
    | Serialization                  // SerializationException
    | Deserialization                // DeserializationException
    | InvalidLength                  // InvalidLengthException of the older DataType
    | EndOfFile                      // java.io.EOFException
    | InputOutput                    // any other java.io.IOException
    | ClosedChannel                  // java.nio.channels.ClosedChannelException
    | IllegalState(message: string)  // IllegalStateException
    | InvalidExpression(message: string)  // InvalidExpressionException
    | ParseCancellation(message: string)  // ParseCancellationException
    | EmptyStack                     // java.util.EmptyStackException
    | StackOverflow                  // StackOverflowError: unbounded recursion over a cyclic index file
    | OutOfMemory                    // OutOfMemoryError: unbounded descent over a cyclic index file

  datatype Result<+T> = Ok(value: T) | Err(error: Error) {
    predicate IsFailure() { Err? }

    function PropagateFailure<U>(): Result<U>
      requires Err?
    {
      Err(error)
    }

    function Extract(): T
      requires Ok?
    {
      value
    }
  }

  /** A Result for operations whose success carries nothing. */
  datatype Outcome = Pass | Fail(error: Error) {
    predicate IsFailure() { Fail? }

    function PropagateFailure<U>(): Result<U>
      requires Fail?
    {
      Err(error)
    }
  }
}
