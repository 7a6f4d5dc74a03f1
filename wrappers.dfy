/** Optional values: a dialog that can be cancelled, a parse that can fail. */
module Wrappers {

  datatype Option<+T> = None | Some(value: T)
}
