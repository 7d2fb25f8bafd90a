/** Optional values, standing for JavaScript's `undefined`/`null` and for foreign
    calls that may throw. */
module Wrappers {

  datatype Option<+T> = None | Some(value: T)
}
