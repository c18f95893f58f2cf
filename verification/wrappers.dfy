/** Optional values and Ok/Error results. */
module Wrappers {

  /** A value that may be missing; `None` stands for JavaScript's `undefined`. */
  datatype Option<+T> = None | Some(value: T)

  /** Gleam's `Result`: `Ok(value)` or `Error(error)`. */
  datatype Result<+T, +E> = Ok(value: T) | Error(error: E)
}
