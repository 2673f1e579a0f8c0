/** Failure-carrying values: `Option` for Python's `None`-or-value results and
    `Result` for computations that may raise. */
module Wrappers {

  datatype Option<+T> = None | Some(value: T)

  datatype Result<+T, +E> = Success(value: T) | Failure(error: E)
}
