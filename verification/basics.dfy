/** Optional values and results, standing in for Java's nullable references
    and thrown exceptions. */
module Basics {

  /** A value that may be absent: `None` plays the role of Java's `null`. */
  datatype Option<+T> = None | Some(value: T)

  /** The outcome of an operation that either yields a value or raises an error. */
  datatype Result<+T, +E> = Success(value: T) | Failure(error: E)
}
