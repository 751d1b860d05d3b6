/** Optional values, used for the debouncer's single pending timer. */
module Wrappers {
  datatype Option<+T> = None | Some(value: T)
}
