/** Optional values and success-or-error results, standing for the source's `T | null` returns and thrown errors. */
module Wrappers {

  datatype Option<+T> = None | Some(value: T)

  datatype Result<+R, +E> = Success(value: R) | Failure(error: E)

  /** The outcome of an operation that returns nothing (`Promise<void>`) or throws. */
  datatype Outcome<+E> = Pass | Fail(error: E)
}
