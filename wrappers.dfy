/** Optional values and results with an error, the shapes the linter's data takes. */
module Wrappers {

  /** A value that may be missing (the source's `null`). */
  datatype Option<+T> = None | Some(value: T)

  /** The result of an operation that may throw an error instead of returning. */
  datatype Result<+T, +E> = Ok(value: T) | Err(error: E)
}
