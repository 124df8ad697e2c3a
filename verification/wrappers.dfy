/** Failure-carrying values used throughout the model: a Python call that may
    return `None` becomes an `Option`, one that may raise becomes a `Result`. */
module Wrappers {

  datatype Option<+T> = None | Some(value: T)

  datatype Result<+T, +E> = Ok(value: T) | Err(error: E)
}
