/** The optional value returned by a parser that may reject its input. */
module Wrappers {

  datatype Option<+T> = None | Some(value: T)
}
