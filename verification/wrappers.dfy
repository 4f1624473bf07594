/** Failure-carrying datatypes shared by every module of the model. */
module Wrappers {

  /** A value that may be missing: the source's `null`, `undefined` and Rust's `Option`. */
  datatype Option<+T> = None | Some(value: T)

  /** A computation that either produced a value or raised an error (a thrown
      exception in the TypeScript sources, an `Err` in the Rust sources). */
  datatype Result<+T, +E> = Ok(value: T) | Err(error: E)
}
