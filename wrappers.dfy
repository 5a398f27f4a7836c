/** Optional values: `undefined` in the layout engine becomes `None`. */
module Wrappers {

  datatype Option<+T> = None | Some(value: T)

}
