/** The optional value used for lookups that can miss and for the session identity. */
module Wrappers {

  datatype Option<+T> = None | Some(value: T)
}
