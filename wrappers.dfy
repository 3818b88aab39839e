/** An optional value: a Java null, or the missing answer of a failed library call. */
module Wrappers {

  datatype Option<+T> = None | Some(value: T)
}
