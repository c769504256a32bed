/** The optional value used for an absent quote and for a nullable response field. */
module Wrappers {
  datatype Option<+T> = None | Some(value: T)
}
