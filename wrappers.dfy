/** Optional values: an absent JSON field, an emptied array slot, an absent reply field. */
module Wrappers {

  datatype Option<+T> = None | Some(value: T)
}
