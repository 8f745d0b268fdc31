/** The optional-value datatype used for "no item found" and "nothing selected". */
module Wrappers {

  datatype Option<+T> = None | Some(value: T)
}
