/** The optional value used wherever the scrapers may find nothing. */
module Wrappers {
  datatype Option<+T> = None | Some(value: T)
}
