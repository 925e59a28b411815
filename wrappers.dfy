/** The optional value used for "not found" and for a rejected constructor argument. */
module Wrappers {
  datatype Option<+T> = None | Some(value: T)
}
