/** Optional values: a JSON field that may be absent or null, a response header that may be missing. */
module Wrappers {
  datatype Option<+T> = None | Some(value: T)
}
