/** Failure-carrying values shared by every module of the model. */
module Wrappers {

  /** A value or its absence; `None` stands for the source's `null` failure sentinel. */
  datatype Option<+T> = None | Some(value: T)

  /** A value or an error message; `Err` stands for a thrown `Error`. */
  datatype Result<+T, +E> = Ok(value: T) | Err(error: E)
}
