/** The Option type used for JavaScript values that may be NaN or missing. */
module Wrappers {

  datatype Option<+T> = None | Some(value: T)

}
