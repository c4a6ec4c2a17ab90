/** Outcomes: a value or an error, and an optional value. */
module Wrappers {
  datatype Result<T, E> = Ok(value: T) | Err(error: E)

  datatype Option<T> = None | Some(value: T)
}
