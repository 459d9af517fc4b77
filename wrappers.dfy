/** Optional values: PHP's `null` (a missing path segment, a missing row). */
module Wrappers {

  datatype Option<+T> = None | Some(value: T)

}
