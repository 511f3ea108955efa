/** Failure-carrying wrappers shared by the modules of this model. */
module Wrappers {

  /** An optional value: Java's `Optional<T>` or a nullable reference. */
  datatype Option<+T> = None | Some(value: T)

  /** Either a value or the exception the Java code would have thrown instead. */
  datatype Result<+T, +E> = Success(value: T) | Failure(error: E)
}
