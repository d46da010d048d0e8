/** Result types standing in for the Java values and exceptions of the write path. */
module Outcomes {

  /** A value that may be absent (a Java reference that may be null). */
  datatype Option<T> = None | Some(value: T)

  /**
   * The outcome of a journal operation: a value, or one of the two exceptions the
   * write path raises (BufferOverflowException when an entry does not fit a segment,
   * IndexOutOfBoundsException when truncation would drop committed entries).
   */
  datatype Outcome<T> = Ok(value: T) | Overflow | IndexOutOfBounds

  function Min(a: int, b: int): int { if a <= b then a else b }

  function Max(a: int, b: int): int { if a <= b then b else a }
}
