/** The optional value used for a line that does not match and for a request
    body that could not be read. */
module Wrappers {
  datatype Option<T> = None | Some(value: T)
}
