/** The `Option` and `Result` values used in place of the source's `Option` values and panics. */
module Outcomes {

  datatype Option<T> = None | Some(value: T)

  /** A computation that either produced a value or stopped with an error. */
  datatype Result<T, E> = Ok(value: T) | Err(error: E)
}
