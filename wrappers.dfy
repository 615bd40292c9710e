/** The optional value used for records a handler may or may not return. */
module Wrappers {

  datatype Option<+T> = None | Some(value: T)

}
