/** Bytes, and C strings in them. */
module Octets {

  type Byte = x: int | 0 <= x < 256

  /** A C string ends at its first zero byte. */
  function CString(s: seq<Byte>): seq<Byte> {
    if s == [] || s[0] == 0 then [] else [s[0]] + CString(s[1..])
  }
}
