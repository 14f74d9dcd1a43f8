/** A value that may be missing: Python's `None`, and the place of a raised error. */
module Wrappers {
  datatype Option<+T> = None | Some(value: T)
}
