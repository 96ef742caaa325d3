/** The optional value the model uses where the JavaScript source uses `null`. */
module Wrappers {
  datatype Option<+T> = None | Some(value: T)
}
