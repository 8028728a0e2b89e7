/** Optional value and result wrappers used across the model: `Option` and
    `Result`, the latter standing in for Go's `(T, error)` pairs. */
module Wrappers {

  datatype Option<+T> = None | Some(value: T)

  datatype Result<+T, +E> = Ok(value: T) | Err(error: E)
}
