/** Results that may be absent: a null pointer, a search that fails. */
module Wrappers {
  datatype Option<T> = None | Some(value: T)
}
