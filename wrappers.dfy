/** Failure-carrying values shared by the other modules. */
module Wrappers {

  /** A value that may be absent: an unparsable query parameter, a missing row. */
  datatype Option<+T> = None | Some(value: T)

  /** The outcome of a call that returns either a value or an error, as Go's `(T, error)` pairs do. */
  datatype Result<+T, +E> = Success(value: T) | Failure(error: E)
}
