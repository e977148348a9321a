/** The 12-byte GIOP message header, as sent and as received. */
module Giop {
  import opened Cdr

  const HEADER_SIZE: nat := 12

  // message_type
  const REQUEST: byte := 0
  const REPLY: byte := 1
  const CANCELREQUEST: byte := 2
  const LOCATEREQUEST: byte := 3
  const LOCATEREPLY: byte := 4
  const CLOSECONNECTION: byte := 5
  const MESSAGEERROR: byte := 6
  const FRAGMENT: byte := 7

  const MAGIC: bytes := [0x47, 0x49, 0x4F, 0x50]

  /** What a host of byte order `e` sends in front of `size` body bytes. */
  function HeaderWire(e: Endian, minor: byte, kind: byte, size: nat): (h: bytes)
    ensures |h| == HEADER_SIZE
  {
    MAGIC + [1, minor, FlagByte(e), kind] + Store(e, 4, size)
  }
}
