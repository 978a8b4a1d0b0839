/** Optional values, standing for JavaScript's `undefined` results and for
    a selection that may or may not have been set. */
module Wrappers {

  datatype Option<+T> = None | Some(value: T)
}
