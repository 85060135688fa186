/** The optional value used wherever the helpers return `undefined` for "nothing there". */
module Wrappers {

  datatype Option<+T> = None | Some(value: T)
}
