/** The optional value used wherever a lookup or a parse may find nothing. */
module Wrappers {
  datatype Option<T> = None | Some(value: T)
}
