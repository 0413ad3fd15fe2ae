/** The optional value used for results that may be absent (a decode that fails). */
module Wrappers {
  datatype Option<+T> = None | Some(value: T)
}
