/** The conventional optional value, for lookups that may fail. */
module Wrappers {
  datatype Option<T> = None | Some(value: T)
}
