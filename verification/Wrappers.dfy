/** A value that may be missing: a null pointer, a failed read, an absent parent. */
module Wrappers {
  datatype Option<+T> = None | Some(value: T)
}
