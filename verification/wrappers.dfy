/** The Some/None datatype used where the Java code would hold a possibly-null reference. */
module Wrappers {

  datatype Option<+T> = None | Some(value: T)
}
