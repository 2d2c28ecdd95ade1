/** The usual optional value, for a storage lookup that may find nothing. */
module Wrappers {

  datatype Option<+T> = None | Some(value: T)
}
