/** The optional value used for a record's id (`null` in the form) and for search results. */
module Wrappers {

  datatype Option<+T> = None | Some(value: T)
}
