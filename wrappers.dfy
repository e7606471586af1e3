/** The usual optional-value datatype, used for operations of the source that raise. */
module Wrappers {
  datatype Option<+T> = None | Some(value: T)
}
