/** Failure-carrying datatypes shared by the other modules. */
module Wrappers {

  /** A value that may be absent: a nullable column or a lookup that can miss. */
  datatype Option<+T> = None | Some(value: T)

  /** Either a successful value or the reason an operation was refused. */
  datatype Result<+T, +E> = Ok(value: T) | Err(error: E)
}
