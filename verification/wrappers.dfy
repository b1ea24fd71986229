/** The optional value used for Java's nullable references and for searches that may fail. */
module Wrappers {

  datatype Option<+T> = None | Some(value: T)
}
