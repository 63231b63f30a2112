/** Option values for DOM lookups that may come back null. */
module Wrappers {
  datatype Option<+T> = None | Some(value: T)
}
