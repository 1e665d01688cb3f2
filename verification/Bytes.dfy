/** Bytes and ASCII literals. */
module Bytes {

  type byte = x: int | 0 <= x < 256

  function Ascii(s: string): seq<byte> {
    seq(|s|, i requires 0 <= i < |s| => (s[i] as int) % 256)
  }
}
