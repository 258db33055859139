/** Optional values, standing for JavaScript's `undefined`/`null`/`NaN` where the source uses them. */
module Wrappers {
  datatype Option<+T> = None | Some(value: T)
}
