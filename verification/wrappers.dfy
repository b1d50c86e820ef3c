/** Failure-carrying values used across the model. */
module Wrappers {

  /** Python's `None` or a value. */
  datatype Option<+T> = None | Some(value: T)

  /** A value, or the message of the error or exception that replaced it. */
  datatype Outcome<+T> = Ok(value: T) | Err(msg: string)
}
