/** The optional value used for Go's nil pointers and for operations that can fail. */
module Wrappers {

  datatype Option<+T> = None | Some(value: T)
}
