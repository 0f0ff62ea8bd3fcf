/** The optional value used where the Java code either produces a value or throws. */
module Wrappers {

  datatype Option<+T> = None | Some(value: T)

}
