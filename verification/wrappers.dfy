/** The optional value used wherever the source gets back `undefined` or -1 from a lookup. */
module Wrappers {

  datatype Option<+T> = None | Some(value: T)

}
