/** The optional result of the store's getter: a value, or the C code's NULL. */
module Wrappers {

  datatype Option<+T> = None | Some(value: T)
}
