/** Optional values: `None` stands for a null pointer of the modelled C++ code. */
module Wrappers {

  datatype Option<+T> = None | Some(value: T)
}
