/** The usual optional value, used for operations that throw in the source. */
module Wrappers {
  datatype Option<+T> = None | Some(value: T)
}
