/** Failure-carrying values used across the model in place of Python's
    `None` results, error tuples and raised exceptions. */
module Wrappers {

  datatype Option<+T> = None | Some(value: T)

  datatype Result<+T, +E> = Ok(value: T) | Err(error: E)
}
