/** Failure-carrying wrappers used in place of null references and exceptions. */
module Wrappers {

  /** A value that may be absent (a C# null). */
  datatype Option<+T> = None | Some(value: T)

  /** The outcome of a step that may throw: its value, or the error it raised. */
  datatype Result<+R, +E> = Success(value: R) | Failure(error: E)
}
