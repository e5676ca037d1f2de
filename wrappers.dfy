/** The optional value used wherever the parser may find nothing or fail. */
module Wrappers {

  datatype Option<+T> = None | Some(value: T)
}
