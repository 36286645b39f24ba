// A value which may be missing: a null pointer, an invalid ID, or an exception in place of a result.
module Wrappers {
  datatype Option<T> = None | Some(value: T)
}
