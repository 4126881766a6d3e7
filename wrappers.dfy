/** The optional value used for a nested element lookup that may find nothing. */
module Wrappers {

  datatype Option<+T> = None | Some(value: T)
}
