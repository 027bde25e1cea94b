/** The optional-value type used for Go's (value, error) pairs. */
module Wrappers {

  datatype Option<+T> = None | Some(value: T)
}
