/** Failure-carrying values shared by every module of the model. */
module Wrappers {

  datatype Option<+T> = None | Some(value: T)

  /** `Ok`/`Err` as Rust's `Result<T, String>` and the rejected promises of the front end. */
  datatype Result<+T, +E> = Ok(value: T) | Err(error: E)
}
