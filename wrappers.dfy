/** Optional values: a missing column (`null` in the data store) is `None`. */
module Wrappers {

  datatype Option<+T> = None | Some(value: T)

}
