// Shared result types: the source's Option, and its Result with the error text dropped.
module Wrappers {
  datatype Option<+T> = None | Some(value: T)

  datatype Result<+T> = Ok(value: T) | Err
}
