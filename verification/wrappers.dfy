/** Failure-carrying datatypes shared by the whole model. */
module Wrappers {

  /** A value that may be absent: a request field that was not sent, a session
      record that does not exist. */
  datatype Option<+T> = None | Some(value: T)

  /** The synchronous counterpart of a promise: it either resolves with a
      value or rejects with an error. */
  datatype Result<+T, +E> = Ok(value: T) | Err(error: E)
}
