/** The optional value that the readers return. */
module Wrappers {

  datatype Option<T> = None | Some(value: T)
}
