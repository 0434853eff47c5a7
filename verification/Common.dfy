/** What several modules share. */
module Common {

  datatype Option<T> = None | Some(value: T)

  /** An unsigned 8-bit number. */
  type Byte = n: nat | n < 256
}
