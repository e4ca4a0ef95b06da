/** The optional value used where an operation may have nothing to return. */
module Wrappers {
  datatype Option<+T> = None | Some(value: T)
}
