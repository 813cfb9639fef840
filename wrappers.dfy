/** Optional values: SQL NULL, a missing dictionary key, Python's None. */
module Wrappers {

  datatype Option<+T> = None | Some(value: T)
}
