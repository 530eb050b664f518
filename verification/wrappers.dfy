/** Failure-compatible wrappers used throughout the model: `Option` stands for a
    C# reference that may be null, `Result` for a computation that may throw. */
module Wrappers {

  datatype Option<+T> = None | Some(value: T)

  datatype Result<+R, +E> = Ok(value: R) | Err(error: E)
}
