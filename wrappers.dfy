/** Optional values: a JSON `None`, a missing key, a value that could not be read. */
module Wrappers {

  datatype Option<+T> = None | Some(value: T)
}
