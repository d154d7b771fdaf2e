/** The failure-compatible value types shared by the models. */
module Wrappers {

  /** A Go pointer, comma-ok lookup or optional value. */
  datatype Option<+T> = None | Some(value: T)
}
