/** Failure-compatible wrappers used by the transaction model. */
module Wrappers {

  /** A value that may be absent: JavaScript's `null`/`undefined` next to a real value. */
  datatype Option<+T> = None | Some(value: T)

  /** The outcome of an asynchronous store call: its value, or the error it was rejected with. */
  datatype Result<+T> = Success(value: T) | Failure(error: string)
}
