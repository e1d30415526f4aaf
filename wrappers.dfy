/** The optional value used for every reader that can reject its input. */
module Wrappers {

  datatype Option<+T> = None | Some(value: T)
}
