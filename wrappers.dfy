/** Optional values, used where the Python code returns -1 or None. */
module Wrappers {
  datatype Option<+T> = None | Some(value: T)
}
