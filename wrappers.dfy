/** The absent-value sentinel of the source (a Java `null` return) as an explicit option. */
module Wrappers {

  datatype Option<+T> = None | Some(value: T)
}
