/** The optional value used where a decoder can reject its input. */
module Wrappers {

  datatype Option<+T> = None | Some(value: T)
}
