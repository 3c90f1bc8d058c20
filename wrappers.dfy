/** The optional value used for a document that may or may not exist. */
module Wrappers {
  datatype Option<+T> = None | Some(value: T)
}
