/** Optional values: an element or attribute the page may lack, a radio group with no choice. */
module Wrappers {
  datatype Option<+T> = None | Some(value: T)
}
