/** The optional-value datatype used throughout the model. */
module Wrappers {
  datatype Option<+T> = None | Some(value: T)
}

/** Octets, as the .NET `byte`. */
module Bytes {
  type byte = b: int | 0 <= b < 256
}
