/** The optional-value wrapper used throughout the relay model. */
module Wrappers {

  datatype Option<+T> = None | Some(value: T)
}
