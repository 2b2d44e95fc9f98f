/** The optional value shared by the modules that return one. */
module Wrappers {
  datatype Option<T> = None | Some(value: T)
}
