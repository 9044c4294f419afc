/**
 * The parts of a CoAP message (section 3 of RFC 7252) that the transaction
 * engine inspects, and the addressing information that travels with it.
 */
module CoapTypes {
  import opened Common
  import opened Ip6Address

  datatype MessageType = Confirmable | NonConfirmable | Acknowledgment | Reset

  const CodeEmpty: uint8 := 0x00
  const CodeGet: uint8 := 0x01
  const CodeDelete: uint8 := 0x04
  const CodeResponseMin: uint8 := 0x40      // 2.00
  const CodeChanged: uint8 := 0x44          // 2.04
  const CodeContent: uint8 := 0x45          // 2.05
  const CodeContinue: uint8 := 0x5f         // 2.31
  const CodeBadRequest: uint8 := 0x80       // 4.00
  const CodeNotFound: uint8 := 0x84         // 4.04
  const CodeRequestIncomplete: uint8 := 0x88 // 4.08
  const CodeRequestTooLarge: uint8 := 0x8d  // 4.13
  const CodeInternalError: uint8 := 0xa0    // 5.00

  const OptionObserve: uint16 := 6
  const OptionUriPath: uint16 := 11
  const OptionBlock2: uint16 := 23
  const OptionBlock1: uint16 := 27
  const OptionSize1: uint16 := 60

  datatype CoapOption = CoapOption(number: uint16, value: seq<uint8>)

  /**
   * A CoAP message: header fields, the options in the order they appear,
   * whether the options parse, and the total length in bytes.
   */
  datatype Message = Message(
    msgType: MessageType,
    code: uint8,
    messageId: uint16,
    token: seq<uint8>,
    options: seq<CoapOption>,
    optionsWellFormed: bool,
    length: nat)

  predicate IsRequest(m: Message) { CodeGet <= m.code <= CodeDelete }
  predicate IsResponse(m: Message) { m.code >= CodeResponseMin }
  predicate IsEmpty(m: Message) { m.code == CodeEmpty }
  predicate IsConfirmable(m: Message) { m.msgType == Confirmable }
  predicate IsNonConfirmable(m: Message) { m.msgType == NonConfirmable }

  /** The big-endian unsigned integer an option value encodes. */
  function UintValue(bytes: seq<uint8>): nat
  {
    if bytes == [] then 0 else UintValue(bytes[..|bytes| - 1]) * 0x100 + bytes[|bytes| - 1]
  }

  predicate HasOption(m: Message, number: uint16)
  {
    exists i | 0 <= i < |m.options| :: m.options[i].number == number
  }

  /** The value of the first Observe option, when there is one. */
  function ObserveValue(options: seq<CoapOption>): Option<nat>
  {
    if options == [] then None
    else if options[0].number == OptionObserve then Some(UintValue(options[0].value))
    else ObserveValue(options[1..])
  }

  /** A message's addressing: the peer, its port, and the local socket address. */
  datatype MessageInfo = MessageInfo(peerAddr: Address, peerPort: uint16, sockAddr: Address)

  /** Identity of a response handler and the context it is registered with. */
  datatype HandlerRef = HandlerRef(handler: nat, context: nat)
}
