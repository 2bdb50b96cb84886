/** The optional result both components use in place of a NULL pointer. */
module Wrappers {

  datatype Option<+T> = None | Some(value: T)
}
