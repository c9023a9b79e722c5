/** The optional value used for nullable slots, lookups and keyboard input. */
module Wrappers {
  datatype Option<+T> = None | Some(value: T)
}
