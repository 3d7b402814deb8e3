/** Option and Result values, standing for Java's nullable references and thrown exceptions. */
module Wrappers {
  datatype Option<T> = None | Some(value: T)

  /** The exceptions the modelled Java code throws on its error paths. */
  datatype Failure =
    | EmptyStack        // EmptyStackException
    | StackPeek         // StackPeekException (negative depth)
    | EmptyQueue        // EmptyQueueException
    | IllegalArgument   // IllegalArgumentException
    | IndexOutOfBounds  // IndexOutOfBoundsException
    | NegativeArraySize // NegativeArraySizeException

  datatype Result<T> = Ok(value: T) | Err(failure: Failure)
}
