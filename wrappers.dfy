/** A value that may be absent: the model of Python's `None`. */
module Wrappers {
  datatype Option<+T> = None | Some(value: T)
}
