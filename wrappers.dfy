/** The optional value used for a history slot that may hold no frame. */
module Wrappers {
  datatype Option<+T> = None | Some(value: T)
}
