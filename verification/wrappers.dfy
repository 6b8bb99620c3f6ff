/** Option and Result, shared by the whole model: `Option` for a
    value that may be absent (a pandas NaN after a left merge) and `Result`
    for an operation that can halt the page with an error. */
module Wrappers {

  /** A value that may be missing. */
  datatype Option<+T> = None | Some(value: T)

  /** Either the computed value or the reason the render stopped. */
  datatype Result<+T, +E> = Ok(value: T) | Err(error: E)
}
