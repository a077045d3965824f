/** Failure-carrying values shared by the modules of the model. */
module Wrappers {

  /** A value that may be absent: JavaScript's `null`/`undefined`, or a failed lookup. */
  datatype Option<+T> = None | Some(value: T)

  /** The outcome of an operation that either produces a value or throws an error. */
  datatype Result<+T, +E> = Ok(value: T) | Err(error: E)
}
