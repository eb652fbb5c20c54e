/** Optional values: `None` stands for a NULL pointer or an absent result. */
module Wrappers {

  datatype Option<+T> = None | Some(value: T)
}
