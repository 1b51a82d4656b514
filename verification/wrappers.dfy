/** Optional values, used for a file that may not exist, a session slot that may be
    empty and a search that may find nothing. */
module Wrappers {

  datatype Option<+T> = None | Some(value: T)
}
