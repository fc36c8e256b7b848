/** The optional value used where the league code returns a possibly null pointer. */
module Wrappers {
  datatype Option<+T> = None | Some(value: T)
}
