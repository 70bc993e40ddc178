/** The optional value returned by the parsers that read formatted text back. */
module Wrappers {

  datatype Option<+T> = None | Some(value: T)
}
