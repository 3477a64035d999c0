/** Optional values: a stored entry that may be missing, a decode that may be abandoned,
    a page text the widget has not written yet. */
module Wrappers {

  datatype Option<+T> = None | Some(value: T)
}
