/** The optional value used wherever the Java code returns or stores a
    reference that may be null. */
module Wrappers {

  datatype Option<+T> = None | Some(value: T)
}
