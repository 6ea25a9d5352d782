/** Failure-carrying results: the model's stand-in for C# null references and thrown exceptions. */
module Wrappers {

  /** A value that may be absent (a C# reference that may be null). */
  datatype Option<+T> = None | Some(value: T)

  /** A value, or the error an operation threw instead of returning it. */
  datatype Result<+T, +E> = Ok(value: T) | Err(error: E)

  /** Completion of an operation that returns nothing (`void`), or the error it threw. */
  datatype Outcome<+E> = Pass | Fail(error: E)
}
