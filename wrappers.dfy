/** The optional-value datatype used for "no coffee matched this name". */
module Wrappers {

  datatype Option<+T> = None | Some(value: T)

}
