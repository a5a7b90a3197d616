/** Result types shared by the modules of this project. */
module Wrappers {

  /** A value that may be absent: a null, an undefined field, a missing map key. */
  datatype Option<+T> = None | Some(value: T)

  /** A computation that may throw or return an error. */
  datatype Result<+T, +E> = Ok(value: T) | Err(error: E)
}
