/** An optional value: what a lookup that may find nothing (a NULL pointer) returns. */
module Wrappers {

  datatype Option<+T> = None | Some(value: T)
}
