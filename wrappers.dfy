/** The optional value used where the source has `null` or an invalid `Date`. */
module Wrappers {
  datatype Option<+T> = None | Some(value: T)
}
