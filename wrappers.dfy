/** The optional value used for absent files and failed conversions. */
module Wrappers {
  datatype Option<+T> = None | Some(value: T)
}
