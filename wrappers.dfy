/** The optional value used for Ruby's `nil`-or-something slots. */
module Wrappers {
  datatype Option<+T> = None | Some(value: T)
}
