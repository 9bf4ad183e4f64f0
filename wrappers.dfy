/** Optional values: the model's stand-in for the NULL pointers the C code returns on failure. */
module Wrappers {

  datatype Option<+T> = None | Some(value: T)
}
