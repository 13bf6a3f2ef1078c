/** The optional value used for the outcomes of the browser built-ins that may throw. */
module Wrappers {

  datatype Option<+T> = None | Some(value: T)
}
