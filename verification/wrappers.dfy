/** The two answer shapes of the record store: an optional value (a nullable
    column, a lookup that may find nothing) and a value-or-error result. */
module Wrappers {

  datatype Option<+T> = None | Some(value: T)

  datatype Result<+T, +E> = Ok(value: T) | Err(error: E)
}
