/** The bytes of files, media and messages. */
module Octets {

  type Byte = x: int | 0 <= x < 256

  /** The number in two bytes from a place on, the low byte first. */
  function ShortAt(s: seq<Byte>, at: nat): nat
    requires at + 2 <= |s|
  {
    s[at] as int + 0x100 * s[at + 1] as int
  }
}
