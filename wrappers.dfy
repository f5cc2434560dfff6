/** Optional values, used where the source raises an exception or skips an action. */
module Wrappers {
  datatype Option<+T> = None | Some(value: T)
}
