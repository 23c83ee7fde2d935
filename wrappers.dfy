/** The optional value the source writes as `T | undefined` (or an absent field). */
module Wrappers {

  datatype Option<+T> = None | Some(value: T)
}
