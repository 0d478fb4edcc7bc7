/** The optional value used where the source panics or yields nothing. */
module Wrappers {

  datatype Option<+T> = None | Some(value: T)
}
