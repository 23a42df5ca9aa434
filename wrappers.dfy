/** The optional value used for nullable columns and for rows that may be rejected. */
module Wrappers {
  datatype Option<+T> = None | Some(value: T)
}
