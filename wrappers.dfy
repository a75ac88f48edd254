/** The optional value used for operations that may raise. */
module Wrappers {

  datatype Option<T> = None | Some(value: T)
}
