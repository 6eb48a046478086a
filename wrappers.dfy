/** Outcomes of operations that can fail, and optional values. */
module Wrappers {
  datatype Option<T> = None | Some(value: T)

  /** A value, or the message of the exception the source raises. */
  datatype Result<T> = Ok(value: T) | Err(message: string)
}
