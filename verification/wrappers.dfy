/** The optional value used wherever the auditor returns `None`. */
module Wrappers {

  datatype Option<+T> = None | Some(value: T)
}
