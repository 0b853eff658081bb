/** A value that may be absent: the model of a nullable reference (`Book?`, `BookDto?`). */
module Wrappers {

  datatype Option<+T> = None | Some(value: T)
}
