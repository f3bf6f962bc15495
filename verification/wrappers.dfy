/** Result types used to model the source's panics and nil returns. */
module Wrappers {

  /** A value that may be absent: the model of a Go nil pointer or nil interface. */
  datatype Option<+T> = None | Some(value: T)

  /** Either a value or the reason construction failed (a Go panic at registration time). */
  datatype Result<+T, +E> = Success(value: T) | Failure(error: E)
}
