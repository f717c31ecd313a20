/** The optional value used where the C program may return NULL. */
module Wrappers {

  datatype Option<+T> = None | Some(value: T)
}
