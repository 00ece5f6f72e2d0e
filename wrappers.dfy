/** A nullable value (for Tp::ConnectionPtr, which may be null). */
module Wrappers {
  datatype Option<+T> = None | Some(value: T)
}
