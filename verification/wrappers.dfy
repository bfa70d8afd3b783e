/** Optional values: a JSON field that may be absent or null, a reader that may fail. */
module Wrappers {
  datatype Option<T> = None | Some(value: T)
}
