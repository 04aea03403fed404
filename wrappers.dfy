/** Optional values, used for the places where the quiz code yields `undefined`. */
module Wrappers {
  datatype Option<+T> = None | Some(value: T)
}
