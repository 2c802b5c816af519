/** Failure-carrying wrappers used for optional request arguments and error outcomes. */
module Wrappers {

  /** An optional value: an absent request argument or a parse that failed. */
  datatype Option<+T> = None | Some(value: T)

  /** The outcome of an operation that either yields a value or fails with an error. */
  datatype Result<+T, +E> = Success(value: T) | Failure(error: E)
}
