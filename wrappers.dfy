/** The optional value used for every nullable pointer of the C code. */
module Wrappers {

  datatype Option<+T> = None | Some(value: T)
}
