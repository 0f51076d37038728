/** The optional-value type used for parsed integers and for label lookups. */
module Wrappers {
  datatype Option<+T> = None | Some(value: T)
}
