/** A value that need not be there. */
module Wrappers {
  datatype Option<+T> = None | Some(value: T)
}
