/** A nullable Java reference, as a value. */
module Wrappers {

  datatype Option<+T> = None | Some(value: T)
}
