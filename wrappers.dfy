/** Result values standing in for the exceptions the Python code raises. */
module Wrappers {

  /** Either the value a call returns or the error it raises. */
  datatype Result<+T, +E> = Ok(value: T) | Err(error: E)

  /** EOFError from input() once the lines typed or pasted have run out. */
  datatype InputError = EndOfInput
}
