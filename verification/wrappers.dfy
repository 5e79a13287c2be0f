/** The optional value the loop gets back from an address lookup that may fail. */
module Wrappers {

  datatype Option<+T> = None | Some(value: T)
}
