/** The optional value used for a counter that may be missing and for a search that may fail. */
module Wrappers {

  datatype Option<+T> = None | Some(value: T)
}
