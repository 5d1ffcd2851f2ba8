/** Optional values, for the source's nullable fields and failed lookups. */
module Wrappers {

  datatype Option<T> = None | Some(value: T)
}
