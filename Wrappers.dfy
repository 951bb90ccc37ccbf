/** A value that may be missing: JavaScript's `undefined` result. */
module Wrappers {
  datatype Option<+T> = None | Some(value: T)
}
