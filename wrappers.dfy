/** The optional value used wherever a host lookup may find nothing. */
module Wrappers {

  datatype Option<+T> = None | Some(value: T)
}
