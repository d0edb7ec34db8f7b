/** Optional values: an absent header, a regular expression that did not match,
    a parse that produced NaN. */
module Wrappers {

  datatype Option<+T> = None | Some(value: T)
}
