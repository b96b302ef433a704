/** Results of operations that can fail, in place of the source's exceptions. */
module Wrappers {

  datatype Option<+T> = None | Some(value: T)

  /** A value, or the error the source would have thrown or raised. */
  datatype Result<+R, +E> = Success(value: R) | Failure(error: E)

  /** Completion of an operation that returns nothing, or its error. */
  datatype Outcome<+E> = Pass | Fail(error: E)
}
