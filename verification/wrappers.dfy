/** The optional value the handler uses for "no extension determined" (`null` in the source). */
module Wrappers {

  datatype Option<+T> = None | Some(value: T)

}
