/** Small shared types: an optional value and an octet. */
module Common {

  /** A value that may be absent (Python's `None`). */
  datatype Option<+T> = None | Some(value: T)

  /** One octet of a file's or a PDF's content. */
  newtype byte = x: int | 0 <= x < 256
}
