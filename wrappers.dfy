/** Optional values and the outcome of a throwing call, used across the model. */
module Wrappers {

  datatype Option<+T> = None | Some(value: T)

  /** A Swift `throws` function: either its value or the error it threw. */
  datatype Result<+R, +E> = Success(value: R) | Failure(error: E)
}
