/** The optional value used for absent elements and failed parses. */
module Wrappers {

  datatype Option<+T> = None | Some(value: T)
}
