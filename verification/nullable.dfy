/** C# references and nullable values: `None` stands for `null`. */
module Nullable {

  datatype Option<+T> = None | Some(value: T)
}
