/** The optional value used for the collector's failure outcome. */
module Wrappers {

  datatype Option<+T> = None | Some(value: T)
}
