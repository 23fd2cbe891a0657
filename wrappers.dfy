/** The optional value the collector returns for addresses and records. */
module Wrappers {

  datatype Option<+T> = None | Some(value: T)
}
