/** Optional values: `undefined`/`null` in the modelled code becomes `None`. */
module Wrappers {

  datatype Option<+T> = None | Some(value: T)

}
