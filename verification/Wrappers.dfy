/** The optional values used where the library returns a possibly null pointer. */
module Wrappers {
  datatype Option<+T> = None | Some(value: T)
}
