/** `Option` and `Result`, used in place of the program's `Option` and its `panic!`s. */
module Wrappers {

  datatype Option<+T> = None | Some(value: T)

  datatype Result<+T, +E> = Ok(value: T) | Err(error: E)
}
