/** The optional-value type used wherever the Java code returns `null`. */
module Wrappers {

  datatype Option<+T> = None | Some(value: T)
}
