/**
  Machine words of the driver: the 8-bit `uint8_t` that every register,
  cursor coordinate and selector of the driver is stored in, plus the
  small Option type used for partial results.
*/
module Bytes {

  /** A C `uint8_t`. As a bit-vector, `+`, `-`, `^`, `&`, `|` and the shifts
      wrap or truncate exactly as the C assignment of an `int` result back
      to `uint8_t` does, negative results included. */
  type byte = bv8

  datatype Option<+T> = None | Some(value: T)
}
