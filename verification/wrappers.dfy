/** The optional value used wherever the program falls back on a missing result. */
module Wrappers {

  datatype Option<+T> = None | Some(value: T)
}
