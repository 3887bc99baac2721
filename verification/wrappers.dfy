/** The optional value used for the source's thrown errors and early returns. */
module Wrappers {

  datatype Option<+T> = None | Some(value: T)
}
