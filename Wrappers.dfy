/** The Option datatype: a value or nothing, standing for Java's null results and exceptions. */
module Wrappers {

  datatype Option<+T> = None | Some(value: T)
}
