/** Option: an element or null, an attribute value or its absence. */
module Wrappers {

  datatype Option<T> = None | Some(value: T)
}
