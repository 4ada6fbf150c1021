/** The "value or nothing" wrapper that stands for Python's `None`. */
module Wrappers {
  datatype Option<+T> = None | Some(value: T)
}
