/** The optional value returned by map lookups and by walks through the transition table. */
module Wrappers {

  datatype Option<+T> = None | Some(value: T)
}
