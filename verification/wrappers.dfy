/** Optional values: `None` stands for a C# reference that is null. */
module Wrappers {

  datatype Option<+T> = None | Some(value: T)
}
