/** The outcome of a library call whose error detail the token codec discards. */
module Wrappers {
  datatype Option<+T> = None | Some(value: T)
}
