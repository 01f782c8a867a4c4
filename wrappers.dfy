/** Optional values: a JavaScript `undefined`/`null`, or an SQL NULL. */
module Wrappers {

  datatype Option<+T> = None | Some(value: T)
}
