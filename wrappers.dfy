/** The optional value used throughout the model, standing for a JavaScript
    value that may be `undefined` (or a failed regular-expression match, `null`). */
module Wrappers {

  datatype Option<+T> = None | Some(value: T)
}
