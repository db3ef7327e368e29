/** The optional value used wherever a C function returns a possibly-null pointer. */
module Wrappers {

  datatype Option<+T> = None | Some(value: T)
}
