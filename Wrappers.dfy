/** Values that stand for Java's null references and thrown exceptions. */
module Wrappers {

  /** A Java reference that may be null: None is null. */
  datatype Option<+T> = None | Some(value: T)

  /** The outcome of a Java call that may throw: Failure carries the exception. */
  datatype Result<+T, +E> = Success(value: T) | Failure(error: E)
}
