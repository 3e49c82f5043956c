/** Failure-compatible wrappers used across the model: `Option` stands for a
    nullable Java reference, `Result` for a value-or-exception outcome. */
module Wrappers {

  datatype Option<+T> = None | Some(value: T)

  datatype Result<+T, +E> = Ok(value: T) | Err(error: E)

}
