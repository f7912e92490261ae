/** The optional value used wherever the browser or a lookup may give nothing back. */
module Wrappers {
  datatype Option<+T> = None | Some(value: T)
}
