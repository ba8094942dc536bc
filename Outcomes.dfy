/**
 * Outcomes of the list operations: a possibly-null argument, the kinds of
 * exception the list throws, and the result of an operation that either
 * returns normally or throws.
 */
module Outcomes {

  /** An object reference that may be null: `None` stands for null. */
  datatype Option<T> = None | Some(value: T)

  /** The exceptions the list throws, one constructor per exception type. */
  datatype Error =
    | ArgumentNull        // ArgumentNullException: a null item, value or array
    | ArgumentOutOfRange  // ArgumentOutOfRangeException: an index outside the valid range
    | InvalidOperation    // InvalidOperationException: GetLast or RemoveLast on an empty list
    | InsufficientSpace   // ArgumentException: CopyTo's destination is too small

  /** The outcome of an operation that returns a value or throws. */
  datatype Result<R> = Success(value: R) | Failure(error: Error)

  /** The outcome of a `void` operation: it returns normally or throws. */
  datatype Outcome = Pass | Fail(error: Error)
}
