/** Failure-compatible wrappers used for the nullable values and the exceptions of the program. */
module Wrappers {

  /** A Kotlin nullable value: `null` is `None`. */
  datatype Option<+T> = None | Some(value: T)

  /** The outcome of an operation that either returns a value or throws. */
  datatype Result<+T> = Success(value: T) | Failure(error: string)

  /** The outcome of a check that either passes or fails with a message. */
  datatype Outcome = Pass | Fail(error: string)
}
