/** Option and Result, the two failure-carrying shapes the services return. */
module Wrappers {

  /** `None` stands for Java's `Optional.empty()` (or a null reference). */
  datatype Option<+T> = None | Some(value: T)

  /** A service call either succeeds with a value or fails with a typed error. */
  datatype Result<+R, +E> = Ok(value: R) | Err(error: E)
}
