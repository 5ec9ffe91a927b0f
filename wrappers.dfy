/** Optional values and results with an error, shared by every module of the model. */
module Wrappers {

  /** `None` stands for JavaScript's `null`/`undefined` and Python's `None`. */
  datatype Option<+T> = None | Some(value: T)

  /** The outcome of a computation that can raise an exception. */
  datatype Result<+T, +E> = Ok(value: T) | Err(error: E)
}
