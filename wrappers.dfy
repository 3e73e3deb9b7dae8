/** The Option type that stands for Java's nullable results and caught exceptions. */
module Wrappers {

  datatype Option<+T> = None | Some(value: T)
}
