/** Option and Result values standing for Java's nullable references and thrown exceptions. */
module Wrappers {

  /** A Java reference that may be null. */
  datatype Option<+T> = None | Some(value: T)

  /** The value of a Java call that either returns normally or throws. */
  datatype Result<+T, +E> = Success(value: T) | Failure(error: E)

  /** A Java call returning void that either completes or throws. */
  datatype Outcome<+E> = Pass | Fail(error: E)
}
