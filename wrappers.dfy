/** Option and Result: Ruby's nil and the exceptions the code raises. */
module Wrappers {

  /** `None` stands for Ruby's `nil`. */
  datatype Option<+T> = None | Some(value: T)

  /** `Err` stands for a raised exception, `Ok` for a normal return. */
  datatype Result<+T, +E> = Ok(value: T) | Err(error: E)
}
