/** Optional values: a Python attribute, element or text that may be absent (None). */
module Wrappers {

  datatype Option<+T> = None | Some(value: T)

}
