/** The optional value used for the browser storage slots and for guarded clicks. */
module Wrappers {
  datatype Option<+T> = None | Some(value: T)
}
