/** Option and Result values shared by every module of the model. */
module Wrappers {

  datatype Option<+T> = None | Some(value: T)

  /** The outcome of an operation that the source ends by throwing an Error. */
  datatype Result<+T> = Ok(value: T) | Err(error: string)
}
