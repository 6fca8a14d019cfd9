/** Optional values, standing in for PHP's `null` results. */
module Wrappers {

  datatype Option<+T> = None | Some(value: T)
}
