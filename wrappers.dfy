/** The optional value used for the solver's fallible operations. */
module Wrappers {

  datatype Option<+T> = None | Some(value: T)
}
