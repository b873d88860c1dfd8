/** The optional value used wherever the auditor either has something or nothing. */
module Wrappers {

  datatype Option<+T> = None | Some(value: T)
}
