/** A value that may be missing: a moved-out pointer, an unset owner, an absent key. */
module Wrappers {

  datatype Option<+T> = None | Some(value: T)
}
