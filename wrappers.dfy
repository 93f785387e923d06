/** Success/failure values standing in for Java's null returns and thrown exceptions. */
module Wrappers {

  datatype Option<+T> = None | Some(value: T)

  /** A computation that yields a value or throws `error`. */
  datatype Result<+R, +E> = Success(value: R) | Failure(error: E)

  /** A computation with no value (a Java `void` method) that completes or throws `error`. */
  datatype Outcome<+E> = Pass | Fail(error: E)
}
