/** Shared helper types. */
module Wrappers {

  /** A value that may be absent: Python's `None`, or a C lookup that fails. */
  datatype Option<T> = None | Some(value: T)
}
