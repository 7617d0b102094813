/** Optional values: `None` stands for Python's `None`, or for an exception that the
    caller catches and turns into "no result". */
module Wrappers {

  datatype Option<+T> = None | Some(value: T)
}
