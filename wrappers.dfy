/** Optional values: a request field that may be absent from the JSON body. */
module Wrappers {

  datatype Option<+T> = None | Some(value: T)
}
