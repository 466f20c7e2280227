/** The optional value used for record fields that the store may lack. */
module Wrappers {

  datatype Option<+T> = None | Some(value: T)
}
