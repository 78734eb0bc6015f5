/** Optional values, used for Go's `error` results (nil or a message) and for
    a JSON decode that may fail. */
module Wrappers {

  datatype Option<+T> = None | Some(value: T)
}
