/** The Some/None datatype used wherever the source produces `undefined` or `null`. */
module Wrappers {

  datatype Option<+T> = None | Some(value: T)
}
