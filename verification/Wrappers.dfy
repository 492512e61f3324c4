/** An optional value, for null pointers and for calls that may fail. */
module Wrappers {

  datatype Option<+T> = None | Some(value: T)
}
