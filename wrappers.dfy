/** The Some/None datatype used for operations of the source that can fail. */
module Wrappers {

  datatype Option<+T> = None | Some(value: T)
}
