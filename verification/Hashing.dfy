/** Content hashes and the option type shared by every component. */
module Hashing {

  /** A content hash. Only equality (and, in arrays, the order of `bytes`) is ever used. */
  datatype Hash = Hash(bytes: string)

  datatype Option<+T> = None | Some(value: T)
}
