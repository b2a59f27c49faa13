/** The optional value used for the error results of validation. */
module Wrappers {
  datatype Option<+T> = None | Some(value: T)
}
