/** Optional values: a Go pointer that may be nil, or a step that may fail. */
module Wrappers {
  datatype Option<T> = None | Some(value: T)
}
