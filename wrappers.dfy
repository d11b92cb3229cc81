/** Go's `(value, error)` pairs and optional values. */
module Wrappers {

  datatype Option<+T> = None | Some(value: T)

  /** A value or an error message (Go's `error`, reduced to its text). */
  datatype Result<+T> = Ok(value: T) | Err(msg: string)
}
