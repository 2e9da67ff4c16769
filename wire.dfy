/** Bytes on the serial line and the fixed parameters of the ZIV meter link. */
module Wire {

  /** One octet as read from or written to the UART. */
  newtype byte = x: int | 0 <= x < 256

  /** One outbound protocol message as produced by the DLMS codec. */
  type Message = seq<byte>

  /** HDLC flag byte that opens and closes every frame. */
  const FLAG: byte := 0x7E

  /** At most this many bytes are written per loop() call (9600 baud, no TX buffer). */
  const MAX_SEND: nat := 10

  /** Reply deadline, armed once the whole queue has been written. */
  const REPLY_TIMEOUT_MS: nat := 2000

  /** The frame-end scan is attempted only when the buffer holds more bytes than this. */
  const MIN_FRAME: nat := 5

  /** Extra room added whenever the receive buffer has to grow. */
  const SLACK: nat := 20

  /** Capacity given to the receive buffer at construction. */
  const INITIAL_CAPACITY: nat := 128

  datatype Option<T> = None | Some(value: T)

  function Min(a: int, b: int): int
  {
    if a <= b then a else b
  }

  /** All bytes of a list of chunks, in order. */
  function Concat(cs: seq<Message>): seq<byte>
  {
    if cs == [] then [] else Concat(cs[..|cs| - 1]) + cs[|cs| - 1]
  }
}
