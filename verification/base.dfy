/** Shared vocabulary of the model: bytes and optional values. */
module Base {

  /** One octet on the serial line; `struct.pack('B', …)` accepts exactly these values. */
  type byte = x: int | 0 <= x < 256

  /** A value that may be absent; stands for Python's `Optional[...]` / `None`. */
  datatype Option<+T> = None | Some(value: T)
}
