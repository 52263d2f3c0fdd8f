/** The optional value used across the model: PHP's `null`/`false` returns
    become `None`. */
module Wrappers {

  datatype Option<+T> = None | Some(value: T)
}
