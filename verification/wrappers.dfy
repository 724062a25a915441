/** Failure-compatible wrappers shared by every container model.

    - Option<T> stands for a Go value that may be nil (an empty ring slot, the
      nil returned by Poll/Peek on an empty container).
    - Result<T, E> stands for Go's `(value, error)` pair.
    - Outcome<E> stands for a lone Go `error` result.
 */
module Wrappers {

  datatype Option<+T> = None | Some(value: T)

  datatype Result<+T, +E> = Ok(value: T) | Err(error: E)

  datatype Outcome<+E> = Pass | Fail(error: E)
}
