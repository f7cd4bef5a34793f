/** The optional value used wherever a type may or may not declare something. */
module Wrappers {

  datatype Option<+T> = None | Some(value: T)
}
