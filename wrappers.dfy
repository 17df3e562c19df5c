/** Python's `None` alongside a value. */
module Wrappers {
  datatype Option<T> = None | Some(value: T)
}
