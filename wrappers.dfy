/** Optional values, used for lookups that may find nothing and decoders that may fail. */
module Wrappers {
  datatype Option<T> = None | Some(value: T)
}
