/** The absent-or-present value shared by every component. */
module Wrappers {
  datatype Maybe<+T> = None | Some(value: T)
}
