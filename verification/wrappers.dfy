/** Failure-carrying values shared by the installer model. */
module Wrappers {

  /** A value that may be absent, as JavaScript's `undefined`/`null`. */
  datatype Option<+T> = None | Some(value: T)

  /** The outcome of an operation that may throw an `Error` with a message. */
  datatype Result<+T> = Ok(value: T) | Err(message: string)
}
