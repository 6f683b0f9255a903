/** The four kinds of failure the catalogue signals, and the wrappers that
    carry either a value or one of them. A Java exception thrown by the
    source becomes an `Err`/`Fail` value here. */
module Failures {

  /** IllegalArgumentException, IllegalStateException, BookNotFoundException
      and DuplicateBookException, in that order. */
  datatype Error = InvalidArgument | InvalidState | NotFound | Duplicate

  datatype Option<+T> = None | Some(value: T)

  /** The result of an operation that returns a value or throws. */
  datatype Result<+T> = Ok(value: T) | Err(error: Error)

  /** The result of a `void` operation that may throw. */
  datatype Outcome = Pass | Fail(error: Error)
}
