/** Small optional-value wrapper used by the model. */
module Wrappers {
  datatype Option<+T> = None | Some(value: T)
}
