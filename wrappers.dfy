/** The optional value the model uses for absent keys, failed parses and panics. */
module Wrappers {
  datatype Option<T> = None | Some(value: T)
}
