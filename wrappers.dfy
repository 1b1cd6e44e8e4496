/** The optional-value datatype used throughout the model: a JavaScript
    property that may be absent (undefined / null) is `None`. */
module Wrappers {
  datatype Option<+T> = None | Some(value: T)
}
