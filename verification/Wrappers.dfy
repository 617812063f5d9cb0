// The optional value used wherever the source returns None.
module Wrappers {
  datatype Option<+T> = None | Some(value: T)
}
