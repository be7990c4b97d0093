/** The optional value used for absent query parameters and for dates that
    do not parse. */
module Wrappers {

  datatype Option<+T> = None | Some(value: T)
}
