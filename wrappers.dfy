/** Option for the partial operations of the model (URL resolution). */
module Wrappers {
  datatype Option<+T> = None | Some(value: T)
}
