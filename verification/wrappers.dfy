/** Optional values, shared by the other modules. */
module Wrappers {

  /** Either no value (an undefined result, a failed parse) or some value. */
  datatype Option<+T> = None | Some(value: T)
}
