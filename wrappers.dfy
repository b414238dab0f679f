/** Optional values: `None` stands for the `null` that the C# code tests for. */
module Wrappers {

  datatype Option<+T> = None | Some(value: T)
}
