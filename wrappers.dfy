/** The optional value used wherever the scraped page may lack an element or an attribute. */
module Wrappers {

  datatype Option<+T> = None | Some(value: T)
}
