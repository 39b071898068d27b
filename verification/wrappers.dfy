/** Wrappers used throughout the model: `Option` for a parse that may
    reject its input, `Result` for an operation that aborts the cleaning run
    with an error. */
module Wrappers {

  datatype Option<+T> = None | Some(value: T)

  datatype Result<+T, +E> = Ok(value: T) | Err(error: E)
}
