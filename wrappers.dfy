/** Optional values: a PHP value that may be NULL (or FALSE) is modelled as an Option. */
module Wrappers {

  datatype Option<+T> = None | Some(value: T)
}
