/** The nullable results of the source (a `State` reference that may be null,
    a route list that may be null, a parse that may fail). */
module Wrappers {
  datatype Option<+T> = None | Some(value: T)
}
