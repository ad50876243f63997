/** An optional value, for Go's nil pointers and JavaScript's `null`. */
module Wrappers {
  datatype Option<T> = None | Some(value: T)
}
