/** Option and Result, the shapes every error path of the model returns. */
module Wrappers {

  datatype Option<+T> = None | Some(value: T)

  /** `Err` stands for a JavaScript `throw`: the error propagates to the caller unchanged. */
  datatype Result<+T, +E> = Ok(value: T) | Err(error: E)
}
