/** Optional values: `None` where a search finds nothing, and where the
    demangler returns `null`. */
module Wrappers {

  datatype Option<+T> = None | Some(value: T)
}
