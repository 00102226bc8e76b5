/** Optional values: stands in for JavaScript's `undefined`/`null` where the
    component tests a value for truthiness. */
module Wrappers {

  datatype Option<+T> = None | Some(value: T)
}
