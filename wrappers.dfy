/** Optional values: a parse that can fail, where the uploader catches the `ValueError`. */
module Wrappers {

  datatype Option<+T> = None | Some(value: T)
}
