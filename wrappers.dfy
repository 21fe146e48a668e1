/** The optional value used where a lookup in the token dictionary can fail. */
module Wrappers {

  datatype Option<+T> = None | Some(value: T)
}
