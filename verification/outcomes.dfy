/** Small failure-carrying datatypes shared by the models of both components. */
module Outcomes {

  /** A value that may be absent: the model's stand-in for a nullable reference. */
  datatype Option<+T> = None | Some(value: T)

  /** Either a value or the exception the source would throw instead. */
  datatype Result<+T, +E> = Ok(value: T) | Err(error: E)
}
