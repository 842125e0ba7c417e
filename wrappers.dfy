/** Option type used wherever the source yields `null`/`undefined` or a value. */
module Wrappers {
  datatype Option<+T> = None | Some(value: T)
}
