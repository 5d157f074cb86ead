/** Optional values: an absent field, or a call that produced nothing. */
module Wrappers {

  datatype Option<+T> = None | Some(value: T)
}
