/** Optional values: the single-emission-or-empty stream of a point read becomes `Some` or `None`. */
module Wrappers {

  datatype Option<+T> = None | Some(value: T)
}
