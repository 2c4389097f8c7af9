/**
  A Java reference that may be null is an `Option`; a call that may throw
  returns a `Result` whose `Failure` carries what the exception would have
  carried.
 */
module Results {

  /** A value that may be absent (a Java reference that may be null). */
  datatype Option<+T> = None | Some(value: T)

  /** Either a computed value or the exception a call raised instead. */
  datatype Result<+R, +E> = Success(value: R) | Failure(error: E)
}
