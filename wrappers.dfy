/** Optional values: a JSON field that may be absent (SQL NULL once bound), a nullable id. */
module Wrappers {

  datatype Option<+T> = None | Some(value: T)

}
