/** The optional value used for lookups that may fail and replies that may be ignored. */
module Wrappers {
  datatype Option<+T> = None | Some(value: T)
}
