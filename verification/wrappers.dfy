/** The optional value used wherever the application stores `T | null`. */
module Wrappers {

  datatype Option<+T> = None | Some(value: T)
}
