/** Failure-compatible wrappers shared by the model: an optional value (Java's
    nullable reference) and a result that is either a value or an error. */
module Wrappers {

  /** A value that may be absent; `None` stands for a Java `null`. */
  datatype Option<+T> = None | Some(value: T)

  /** Either a value or the error that a script would receive as an exception. */
  datatype Result<+T, +E> = Success(value: T) | Failure(error: E)
}
