/** Small failure-compatible wrapper shared by the other modules. */
module Wrappers {

  /** A value that may be absent: Python's `None` or a falsy attribute. */
  datatype Option<+T> = None | Some(value: T)
}
