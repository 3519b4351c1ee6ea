/** Optional values: the `None` that `seeq` returns when nothing matches. */
module Wrappers {
  datatype Option<+T> = None | Some(value: T)
}
