/** Optional values: a cell or a dataset that is present, or absent. */
module Wrappers {

  datatype Option<+T> = None | Some(value: T)
}
