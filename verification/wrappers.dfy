/** Failure-carrying results used across the model: `Option` for lookups that
    may find nothing, `Result` for operations that can throw. */
module Wrappers {

  datatype Option<+T> = None | Some(value: T)

  datatype Result<+T, +E> = Ok(value: T) | Err(error: E)
}
