/** The optional value used for operations that can fail or find nothing. */
module Wrappers {
  datatype Option<T> = None | Some(value: T)
}
