/** Failure-carrying datatypes used in place of Python's exceptions and None. */
module Wrappers {

  /** Python's `None` versus a present value. */
  datatype Option<+T> = None | Some(value: T)

  /** The value a call returns, or the exception it raises. */
  datatype Result<+R, +E> = Success(value: R) | Failure(error: E)

  /** A call that returns nothing useful, or raises. */
  datatype Outcome<+E> = Pass | Fail(error: E)
}
