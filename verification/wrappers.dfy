/** A value that may be absent: Python's `None` or a reference that may be
    null. */
module Wrappers {
  datatype Option<T> = None | Some(value: T)
}
