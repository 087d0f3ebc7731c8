/** Option and Result: the model's stand-ins for Python's None and for raised exceptions. */
module Wrappers {

  datatype Option<+T> = None | Some(value: T)

  /** `Err` carries what the source raises; `Ok` what it returns. */
  datatype Result<+T, +E> = Ok(value: T) | Err(error: E)
}
