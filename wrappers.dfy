/** Option and Result, standing for JavaScript's `false`/`undefined` returns and thrown strings. */
module Wrappers {

  datatype Option<+T> = None | Some(value: T)

  datatype Result<+R, +E> = Success(value: R) | Failure(error: E)
}
