/** Failure-compatible result types shared by the other modules. */
module Wrappers {

  /** An optional value: `std::optional` in the bridge. */
  datatype Option<+T> = None | Some(value: T)

  /** The failures the bridge signals at run time. */
  datatype Error = OutOfRange

  /** A value or the exception the C++ code throws instead. */
  datatype Result<+T> = Ok(value: T) | Err(error: Error)

  /** The outcome of an operation that returns nothing but may throw. */
  datatype Outcome = Pass | Fail(error: Error)
}
