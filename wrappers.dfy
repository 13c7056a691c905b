/** Optional values (Java's nullable references) and results (a value or the exception thrown). */
module Wrappers {

  /** `None` stands for a Java `null`. */
  datatype Option<+T> = None | Some(value: T)

  /** `Failure` carries the exception a Java call would have thrown. */
  datatype Result<+R, +E> = Success(value: R) | Failure(error: E)
}
