/** Optional values: Go's nil-or-value results (a nil error, a nil pointer). */
module Wrappers {

  datatype Option<+T> = None | Some(value: T)

}
