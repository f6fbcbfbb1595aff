/** The optional value used where the source returns null or a missing result. */
module Wrappers {

  datatype Option<+T> = None | Some(value: T)
}
