/** The optional result used for lookups that may find nothing and for codecs that may fail. */
module Wrappers {

  datatype Option<+T> = None | Some(value: T)
}
