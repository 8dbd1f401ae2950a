/** The optional value used wherever JavaScript uses `null` for "no value". */
module Wrappers {

  datatype Option<+T> = None | Some(value: T)
}
