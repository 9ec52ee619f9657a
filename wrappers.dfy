/** Optional values: a JSON field that is present (Some) or left out (None). */
module Wrappers {

  datatype Option<+T> = None | Some(value: T)

}
