/** Optional values, for "no match" and "no key configured". */
module Wrappers {
  datatype Option<+T> = None | Some(value: T)
}
