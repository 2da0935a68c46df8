/** The absent-or-present value used wherever JavaScript returns `null`. */
module Wrappers {

  datatype Option<+T> = None | Some(value: T)
}
