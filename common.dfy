/** Small shared vocabulary: an optional value and the byte type of file contents. */
module Common {

  datatype Option<T> = None | Some(value: T)

  /** One byte of a file's contents (an element of the ArrayBuffer the page reads). */
  newtype Byte = x: int | 0 <= x < 256
}
