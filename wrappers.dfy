/** Optional values (Java's nullable references) and results (Java's exceptions). */
module Wrappers {

  /** `None` stands for a Java `null`. */
  datatype Option<+T> = None | Some(value: T)

  /** The value of a call that either returns normally or throws `error`. */
  datatype Result<+R, +E> = Success(value: R) | Failure(error: E)
}
