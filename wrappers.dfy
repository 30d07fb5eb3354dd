/** The optional value used for "a match may or may not start here" and
    "the file may or may not have been written". */
module Wrappers {
  datatype Option<+T> = None | Some(value: T)
}
