/** Optional values: the model's stand-in for JavaScript's `null` results
    and for the nullable user choice kept by a tree node. */
module Wrappers {

  datatype Option<+T> = None | Some(value: T)

}
