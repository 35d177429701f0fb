/** The optional value used across the model: JavaScript's `null`, `NaN` or
    "no match" results become `None`. */
module Wrappers {
  datatype Option<+T> = None | Some(value: T)
}
