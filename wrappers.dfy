/** The optional value used where the source either produces bytes or raises. */
module Wrappers {
  datatype Option<+T> = None | Some(value: T)
}
