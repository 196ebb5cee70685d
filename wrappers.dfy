/** Failure-carrying result types shared by the template and answer modules. */
module Wrappers {

  /** A value that may be absent (a C# `null`, or a behaviour the source leaves open). */
  datatype Option<+T> = None | Some(value: T)

  /** The outcome of an operation that either produces a value or throws. */
  datatype Result<+T, +E> = Success(value: T) | Failure(error: E)

  /** The outcome of an operation that produces nothing but may throw. */
  datatype Outcome<+E> = Pass | Fail(error: E)
}
