/** The normalized event envelope between decoders and checks (src/slidko/decode/events.py). */
module Events {
  import opened Results
  import Uart

  datatype Kind =
    | UartByte
    | I2cStart | I2cAddress | I2cAck | I2cNak | I2cData | I2cStop
    | SpiTransfer

  /** `framingError` matters for UART bytes, `address` for I2C addresses. */
  datatype Event = Event(kind: Kind, start: int, end: int, framingError: bool, address: Option<int>)

  function OfByte(e: Uart.ByteEvent): Event {
    Event(UartByte, e.start, e.end, e.framingError, None)
  }

  function OfBytes(es: seq<Uart.ByteEvent>): seq<Event> {
    seq(|es|, i requires 0 <= i < |es| => OfByte(es[i]))
  }
}
