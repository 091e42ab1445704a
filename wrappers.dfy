/** Optional values and outcomes shared by the other modules. */
module Wrappers {

  /** A value that may be absent (a Java reference that may be null). */
  datatype Option<+T> = None | Some(value: T)

  /** The outcome of a computation that may fail with an error value. */
  datatype Result<+R, +E> = Success(value: R) | Failure(error: E)

  /** The outcome of a statement that returns nothing but may fail. */
  datatype Outcome<+E> = Pass | Fail(error: E)
}
