/** The optional value used where the source either yields a result or panics. */
module Wrappers {
  datatype Option<+T> = None | Some(value: T)
}
