/** The optional-value wrapper used for fields a request may omit. */
module Wrappers {

  datatype Option<+T> = None | Some(value: T)
}
