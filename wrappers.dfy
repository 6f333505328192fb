/** The optional value returned by lookups and parses that may fail. */
module Wrappers {
  datatype Option<T> = None | Some(value: T)
}
