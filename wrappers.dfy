/** The optional value used across the model for Go's nil-or-value results. */
module Wrappers {

  datatype Option<+T> = None | Some(value: T)
}
