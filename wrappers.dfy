/** `Option` and `Result`, shared by the other modules. */
module Wrappers {

  /** An optional value: the ORM's "first row, if any", or a session that may be missing. */
  datatype Option<+T> = None | Some(value: T)

  /** A value or the error that replaced it. */
  datatype Result<+T, +E> = Ok(value: T) | Err(error: E)
}
