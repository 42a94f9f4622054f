/** The Option wrapper used wherever the source returns NULL or undefined. */
module Wrappers {
  datatype Option<+T> = None | Some(value: T)
}
