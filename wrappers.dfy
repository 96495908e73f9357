/** A value that may be absent: JavaScript's `undefined` beside a real value. */
module Wrappers {
  datatype Option<+T> = None | Some(value: T)
}
