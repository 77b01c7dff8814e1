/** Optional values, used where a Go call returns a value or an error, or where a
    lookup may find nothing. */
module Wrappers {

  datatype Option<+T> = None | Some(value: T)
}
