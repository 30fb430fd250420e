/** Option and Result, standing in for the source's `null` returns and thrown exceptions. */
module Wrappers {

  /** `None` plays the role of a C# `null` reference. */
  datatype Option<+T> = None | Some(value: T)

  /** `Failure` plays the role of an exception the source throws. */
  datatype Result<+R, +E> = Success(value: R) | Failure(error: E)

  /** A check that either passes or raises, like a `void` method that may throw. */
  datatype Outcome<+E> = Pass | Fail(error: E)
}
