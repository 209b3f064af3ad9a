/** The Some/None datatype standing in for a possibly-NULL alarm pointer. */
module Wrappers {

  datatype Option<T> = None | Some(value: T)
}
