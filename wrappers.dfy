/** Optional values, used for the pending button revert, focus targets and
    key events that are either passed on or swallowed. */
module Wrappers {
  datatype Option<+T> = None | Some(value: T)
}
