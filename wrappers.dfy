/** The optional value used wherever the tool gets `None` back from a call. */
module Wrappers {
  datatype Option<+T> = None | Some(value: T)
}
