/** Failure-carrying datatypes shared by the rest of the model. */
module Wrappers {

  /** A value that may be absent. */
  datatype Option<+T> = None | Some(value: T)

  /** Either a value or the error the client raises instead. */
  datatype Result<+R, +E> = Ok(value: R) | Err(error: E)
}
