/** The optional value used for the error half of a validation result. */
module Wrappers {

  datatype Option<+T> = None | Some(value: T)
}
