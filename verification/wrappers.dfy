/** Option and Result, the shapes every fallible step of the cache returns. */
module Wrappers {

  /** A value that may be absent: a file that cannot be hashed, a column that is NULL. */
  datatype Option<+T> = None | Some(value: T)

  /** Either the value a step produced or the error it stopped with. */
  datatype Result<+R, +E> = Success(value: R) | Failure(error: E)
}
