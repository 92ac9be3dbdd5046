/** The optional value used wherever the Java code returns null or throws and the caller branches on it. */
module Wrappers {

  datatype Option<+T> = None | Some(value: T)
}
