/** The usual optional value, used for positions that may be absent. */
module Wrappers {
  datatype Option<+T> = None | Some(value: T)
}
