/** Octets, 16-bit words and the small containers shared by every module. */
module Bytes {

  type Byte = b: int | 0 <= b < 256
  type Word16 = w: int | 0 <= w < 0x10000

  datatype Option<+T> = None | Some(value: T)

  /** The byte swap that `htons` and `ntohs` perform on a little-endian host. */
  function Swap16(w: Word16): Word16 {
    w % 256 * 256 + w / 256
  }
}
