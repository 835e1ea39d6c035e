/** The one optional-value type the model needs (Ruby's `nil` or a value). */
module Wrappers {
  datatype Option<+T> = None | Some(value: T)
}
