/**
 The optional value used for nullable columns, absent rows and the empty
 session slot.
 */
module Wrappers {

  /** A nullable column, an absent row, or an empty slot. */
  datatype Option<T> = None | Some(value: T)
}
