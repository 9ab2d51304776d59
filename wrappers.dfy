/** The optional result the readers in Decimal and Rendering return. */
module Wrappers {

  datatype Option<T> = None | Some(value: T)
}
