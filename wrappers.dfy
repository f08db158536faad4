/** Nullable values: `None` stands for a C# `null`. */
module Wrappers {

  datatype Option<+T> = None | Some(value: T)

}
