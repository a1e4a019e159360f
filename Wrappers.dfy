/** Option and Result types used for the source's `null` returns and thrown errors. */
module Wrappers {

  /** `None` stands for an absent (or `null`) value. */
  datatype Option<+T> = None | Some(value: T)

  /** `Failure` stands for an `Error` thrown by the source. */
  datatype Result<+R, +E> = Success(value: R) | Failure(error: E)

  /** A check that either passes or fails with an error: a validator that returns `void` or throws. */
  datatype Outcome<+E> = Pass | Fail(error: E)
}
