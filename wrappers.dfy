/** Optional values and results with an error path, for JavaScript's null and thrown errors. */
module Wrappers {

  /** `None` stands for JavaScript's `null`/`undefined`. */
  datatype Option<+T> = None | Some(value: T)

  /** The outcome of an operation that may throw. */
  datatype Result<+R, +E> = Success(value: R) | Failure(error: E)
}
