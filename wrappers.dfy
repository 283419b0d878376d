/** Option and Result, the two shapes the block's values and responses take. */
module Wrappers {

  /** A value that may be absent (a missing dictionary key, a JSON `null`). */
  datatype Option<+T> = None | Some(value: T)

  /** A handler's response: `{'success': True, ...}` or `{'success': False, 'error': ...}`. */
  datatype Result<+T, +E> = Success(value: T) | Failure(error: E)
}
