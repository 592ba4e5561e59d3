/** Optional values, standing for the DOM's "element or null" lookups. */
module Wrappers {

  datatype Option<+T> = None | Some(value: T)
}
