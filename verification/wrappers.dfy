/** Optional values, used for JSON fields a request may leave out and for the UI's error banner. */
module Wrappers {

  datatype Option<+T> = None | Some(value: T)
}
