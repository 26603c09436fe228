/** Optional values: stand-in for JavaScript's `null`/`undefined` next to a real value. */
module Wrappers {

  datatype Option<+T> = None | Some(value: T)
}
