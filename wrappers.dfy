/** The optional value returned by navigation and by every match attempt. */
module Wrappers {

  datatype Option<+T> = None | Some(value: T)
}
