/** Option and Result, shared by the modules of this project. */
module Wrappers {

  /** A value that may be absent (TypeScript's `T | undefined`). */
  datatype Option<+T> = None | Some(value: T)

  /** Either a value or the error that a call throws or rejects with. */
  datatype Result<+T, +E> = Ok(value: T) | Err(error: E)
}
