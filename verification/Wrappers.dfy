// A value that may be missing: null, undefined or nil.
module Wrappers {
  datatype Option<+T> = None | Some(value: T)
}
