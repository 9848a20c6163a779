/** Optional values: a pending timer or animation-frame handle that may be
    absent, and a callback that may or may not be invoked. */
module Wrappers {
  datatype Option<+T> = None | Some(value: T)
}
