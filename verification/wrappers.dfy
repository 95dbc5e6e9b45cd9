/** Failure-carrying results shared by every container module.

    Java's `null` return for "no such element" becomes `None`, and a thrown
    exception becomes a `Failure` naming the exception class. */
module Wrappers {

  /** A value or its absence (the containers' `null`). */
  datatype Option<+T> = None | Some(value: T)

  /** The Java exception classes the containers throw. */
  datatype Exception =
    | IllegalState        // java.lang.IllegalStateException
    | IllegalArgument     // java.lang.IllegalArgumentException
    | IndexOutOfBounds    // java.lang.IndexOutOfBoundsException
    | NoSuchElement       // java.util.NoSuchElementException
    | NullPointer         // java.lang.NullPointerException
    | NegativeArraySize   // java.lang.NegativeArraySizeException
    | Runtime             // a bare java.lang.RuntimeException

  /** The outcome of an operation that may throw. */
  datatype Result<+T> = Success(value: T) | Failure(error: Exception)
}
