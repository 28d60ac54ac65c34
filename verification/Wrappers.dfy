/** Small shared datatypes. */
module Wrappers {
  import opened Numeric

  datatype Option<+T> = None | Some(value: T)

  /** What reading from a byte sequence yields: a value and the bytes left, or an error. */
  datatype Res<+T> = Ok(value: T, rest: Bytes) | Err
}
