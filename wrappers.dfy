/** Failure-compatible wrappers used across the model: a lookup that may miss,
    and an outcome that may fail. */
module Wrappers {

  datatype Option<+T> = None | Some(value: T)

  datatype Result<+R, +E> = Ok(value: R) | Err(error: E)
}
