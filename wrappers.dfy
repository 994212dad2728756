/** The JavaScript values `null` and `undefined` that the page checks for. */
module Wrappers {

  /** `None` stands for a missing (null or undefined) value. */
  datatype Option<+T> = None | Some(value: T)
}
