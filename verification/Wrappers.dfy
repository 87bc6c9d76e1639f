/** Datatypes shared by the modules of this project. */
module Wrappers {

  datatype Option<+T> = None | Some(value: T)

  /** A computation that yields a value or an error of type `E`. */
  datatype Result<+T, +E> = Ok(value: T) | Err(error: E)
}
