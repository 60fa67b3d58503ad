/** Success/failure values standing in for the exceptions of the Python implementation. */
module Wrappers {

  datatype Option<+T> = None | Some(value: T)

  /** `Failure(e)` is a call that raised `e`; `Success(v)` one that returned `v`. */
  datatype Result<+T, +E> = Success(value: T) | Failure(error: E)
}
