/** The optional result of a lookup: `None` stands for the `null` that `get` returns. */
module Wrappers {

  datatype Option<+T> = None | Some(value: T)
}
