/** An optional value, for calls that can fail. */
module Wrappers {
  datatype Option<+T> = None | Some(value: T)
}
