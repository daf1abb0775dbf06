/** Optional values, standing for the `string | null` and "no failure" results of the form. */
module Wrappers {
  datatype Option<+T> = None | Some(value: T)
}
