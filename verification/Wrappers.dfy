/** A value that may be absent: a null pointer, or a call that ends in panic(). */
module Wrappers {
  datatype Option<+T> = None | Some(value: T)
}
