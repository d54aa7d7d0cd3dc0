/** Option values for operations that may have no answer. */
module Wrappers {
  datatype Option<+T> = None | Some(value: T)
}
