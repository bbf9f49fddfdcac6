/** The optional value used where the source returns a nil pointer. */
module Wrappers {
  datatype Option<+T> = None | Some(value: T)
}
