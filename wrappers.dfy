/** The optional value used where the original component stores `null`. */
module Wrappers {
  datatype Option<+T> = None | Some(value: T)
}
