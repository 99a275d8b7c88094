/** The optional value used for lookups and for decoding. */
module Wrappers {

  datatype Option<+T> = None | Some(value: T)
}
