/** Option, used wherever the source has a pointer that may be nil. */
module Wrappers {
  datatype Option<+T> = None | Some(value: T)
}
