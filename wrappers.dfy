/** The optional value used where the source has a nullable reference or a failing call. */
module Wrappers {

  datatype Option<+T> = None | Some(value: T)

}
