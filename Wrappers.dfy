/** The optional value used wherever the source has a nullable reference or `int?`. */
module Wrappers {

  datatype Option<+T> = None | Some(value: T)
}
