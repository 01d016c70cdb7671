/** Optional values: a Go pointer or interface that may be nil, an error
    that may be absent. */
module Wrappers {
  datatype Option<T> = None | Some(value: T)
}
