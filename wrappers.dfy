/** Failure-carrying values used across the model: a nullable reference or an
    optional value becomes an Option, a thrown exception becomes a Result. */
module Wrappers {

  datatype Option<+T> = None | Some(value: T)

  datatype Result<+T, +E> = Ok(value: T) | Err(error: E)
}
