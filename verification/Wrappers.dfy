/** A pointer that may be null, and other values that may be missing. */
module Wrappers {
  datatype Option<+T> = None | Some(value: T)
}
