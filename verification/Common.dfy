// Types shared by the modules of this project.
module Common {

  /** An unsigned 8-bit value: `uint8_t`, or one element of a Python `bytes`. */
  type byte = x: int | 0 <= x < 256

  datatype Option<+T> = None | Some(value: T)
}
