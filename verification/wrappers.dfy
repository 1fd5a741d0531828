/** Optional values: a SQL NULL, a pandas NaN, an absent session key. */
module Wrappers {

  datatype Option<+T> = None | Some(value: T)
}
