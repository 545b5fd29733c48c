/** Failure-carrying values used in place of the source's thrown errors, null and undefined. */
module Wrappers {

  /** A value that may be absent: JavaScript's `null`/`undefined`, or `NaN` for a number. */
  datatype Option<+T> = None | Some(value: T)

  /** The outcome of an operation that may throw: `Err` carries the error the source throws. */
  datatype Result<+T, +E> = Ok(value: T) | Err(error: E)

  /** The outcome of an operation that returns nothing but may throw. */
  datatype Outcome<+E> = Pass | Fail(error: E)
}
