/** Optional values: PHP's `null` on the way in (an omitted group or mode)
    and a cache miss on the way out. */
module Wrappers {

  datatype Option<+T> = None | Some(value: T)
}
