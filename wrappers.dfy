/** The Option datatype used for Ruby's nil results. */
module Wrappers {
  datatype Option<+T> = None | Some(value: T)
}
