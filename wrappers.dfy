/** The optional value used for a file that may be missing and a pattern that may not match. */
module Wrappers {
  datatype Option<+T> = None | Some(value: T)
}
