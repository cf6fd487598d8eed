/** Absent values and thrown errors, shared by the table and markdown models. */
module Outcomes {

  /** A value that may be missing: JavaScript's `null` or `undefined`. */
  datatype Option<+T> = None | Some(value: T)

  /** The outcome of an operation that may throw: `Failure` carries the error message. */
  datatype Result<+T> = Success(value: T) | Failure(error: string)
}
