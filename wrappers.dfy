/** Option and Result, used wherever the source returns `None` or a `result.Result`. */
module Wrappers {

  datatype Option<+T> = None | Some(value: T)

  /** Mirrors the `result` package: `Ok(value)` or `Err(error)`. */
  datatype Result<+T, +E> = Ok(value: T) | Err(error: E)
}
