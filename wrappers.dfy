/** Optional values, standing for Java's `Optional` and for "no match" results. */
module Wrappers {

  datatype Option<+T> = None | Some(value: T)
}
