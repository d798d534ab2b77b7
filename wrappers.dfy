/** The optional value used for attributes and data items that may be absent from an element. */
module Wrappers {

  datatype Option<+T> = None | Some(value: T)
}
