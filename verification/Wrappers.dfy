/** The optional value used wherever the source has a nil reference, a nil map or a missing entry. */
module Wrappers {
  datatype Option<+T> = None | Some(value: T)
}
