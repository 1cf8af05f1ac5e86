/** The optional value used wherever a store lookup can come back empty. */
module Wrappers {
  datatype Option<+T> = None | Some(value: T)
}
