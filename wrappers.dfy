/** Optional values and results of operations that can throw. */
module Wrappers {

  /** A Java reference that may be null. */
  datatype Option<T> = None | Some(value: T)

  /** The outcome of a Java call that returns a value or throws. */
  datatype Result<T, E> = Success(value: T) | Failure(error: E)

  /** The outcome of a Java call that returns nothing or throws. */
  datatype Outcome<E> = Pass | Fail(error: E)
}
