/** The optional value used where the Java code stores or returns `null`. */
module Wrappers {

  datatype Option<+T> = None | Some(value: T)
}
