/** The optional-value type shared by the other modules. */
module Wrappers {

  /** `None` plays the role of JavaScript's `undefined` for an absent value. */
  datatype Option<+T> = None | Some(value: T)
}
