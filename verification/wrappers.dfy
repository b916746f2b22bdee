/** Optional values, for the places where the generator either produces
    something or quietly produces nothing. */
module Wrappers {

  datatype Option<+T> = None | Some(value: T)
}
