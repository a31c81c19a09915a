/** The optional value used throughout the model for JavaScript's `null`
    results and for events that may or may not have happened. */
module Wrappers {
  datatype Option<+T> = None | Some(value: T)
}
