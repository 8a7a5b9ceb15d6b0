/** Optional values: a request-body field that may be absent. */
module Wrappers {
  datatype Option<+T> = None | Some(value: T)
}
