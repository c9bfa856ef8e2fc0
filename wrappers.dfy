/** Optional values, standing for JavaScript's null/undefined and PHP's null. */
module Wrappers {

  datatype Option<+T> = None | Some(value: T)
}
