/**
 * Block-wise transfer helpers of the CoAP engine (RFC 7959): block sizes
 * and their SZX exponents, the rescaling of a block number when the block
 * size changes, the options of the next block request, and what a server
 * answers to a Block1 or Block2 request.
 */
module CoapBlockwise {
  import opened Common
  import opened CoapTypes

  /** kMaxBlockLength: the largest block the engine buffers. */
  const MaxBlockLength: nat := 1024

  /** otCoapBlockSizeFromExponent: 2^(SZX + 4) (section 2.2 of RFC 7959). */
  function BlockSize(szx: nat): (size: nat)
    ensures size >= 16
  {
    Pow2Monotone(4, szx + 4);
    assert Pow2(4) == 16;
    Pow2(szx + 4)
  }

  /** The SZX exponent for an exact block length in 16..1024, or None. */
  function SzxForLength(length: nat): (szx: Option<nat>)
  {
    match length
    case 1024 => Some(6)
    case 512 => Some(5)
    case 256 => Some(4)
    case 128 => Some(3)
    case 64 => Some(2)
    case 32 => Some(1)
    case 16 => Some(0)
    case _ => None
  }

  /** The switch on the chunk length accepts exactly the block sizes of SZX 0..6. */
  lemma SzxForLengthRoundTrip(length: nat, szx: nat)
    ensures SzxForLength(length) == Some(szx) <==> szx <= 6 && BlockSize(szx) == length
  {
    assert BlockSize(0) == 16 && BlockSize(1) == 32 && BlockSize(2) == 64 && BlockSize(3) == 128;
    assert BlockSize(4) == 256 && BlockSize(5) == 512 && BlockSize(6) == 1024;
  }

  /** Every length the switch accepts fits the engine's block buffer. */
  lemma SzxForLengthWithinBuffer(length: nat)
    requires SzxForLength(length).Some?
    ensures length <= MaxBlockLength && BlockSize(SzxForLength(length).value) == length
  {
    SzxForLengthRoundTrip(length, SzxForLength(length).value);
  }

  /**
   * The number of the block, in the new size, that holds the first byte
   * the peer asked for: oldSize * oldNumber / newSize.
   */
  function RescaledBlockNumber(oldSzx: nat, oldNumber: nat, newSzx: nat): (number: nat)
  {
    Mul(BlockSize(oldSzx), oldNumber) / BlockSize(newSzx)
  }

  /** The rescaled block starts at or before the requested offset and contains it. */
  lemma RescaledBlockContainsOffset(oldSzx: nat, oldNumber: nat, newSzx: nat)
    ensures var n := RescaledBlockNumber(oldSzx, oldNumber, newSzx);
            n * BlockSize(newSzx) <= Mul(BlockSize(oldSzx), oldNumber) < (n + 1) * BlockSize(newSzx)
  {
    DivisionBounds(Mul(BlockSize(oldSzx), oldNumber), BlockSize(newSzx));
  }

  lemma DivisionBounds(x: nat, d: nat)
    requires d > 0
    ensures (x / d) * d <= x < (x / d + 1) * d
  {
    var q, r := x / d, x % d;
    assert x == q * d + r && r < d;
    assert (q + 1) * d == q * d + d;
  }

  /** When the block shrinks, the rescaled block starts exactly at the requested offset. */
  lemma RescaledBlockExactWhenShrinking(oldSzx: nat, oldNumber: nat, newSzx: nat)
    requires newSzx <= oldSzx
    ensures RescaledBlockNumber(oldSzx, oldNumber, newSzx) * BlockSize(newSzx) == Mul(BlockSize(oldSzx), oldNumber)
  {
    var k := oldSzx - newSzx;
    var size, factor := BlockSize(newSzx), Pow2(k);
    Pow2Add(newSzx + 4, k);
    assert BlockSize(oldSzx) == size * factor;
    assert Mul(BlockSize(oldSzx), oldNumber) == size * (factor * oldNumber) by {
      MulAssociates(size, factor, oldNumber);
    }
    MulDivCancel(size, factor * oldNumber);
  }

  lemma MulAssociates(a: nat, b: nat, c: nat)
    ensures (a * b) * c == a * (b * c)
  {
  }

  /** The Block1/Block2 option value: NUM << 4 | M << 3 | SZX (section 2.2 of RFC 7959). */
  function BlockValue(number: nat, more: bool, szx: nat): (v: nat)
    requires szx < 8
    ensures v % 16 == (if more then 8 else 0) + szx && v / 16 == number
  {
    number * 16 + (if more then 8 else 0) + szx
  }

  /** The shortest big-endian encoding of an unsigned option value (zero is empty). */
  function EncodeUint(v: nat): (bytes: seq<uint8>)
    ensures v == 0 <==> bytes == []
    ensures bytes != [] ==> bytes[0] != 0
    decreases v
  {
    if v == 0 then [] else EncodeUint(v / 0x100) + [v % 0x100]
  }

  /** Decoding the encoded value gives it back. */
  lemma {:induction false} EncodeUintRoundTrip(v: nat)
    ensures UintValue(EncodeUint(v)) == v
    decreases v
  {
    if v != 0 {
      var bytes := EncodeUint(v);
      assert bytes[..|bytes| - 1] == EncodeUint(v / 0x100);
      EncodeUintRoundTrip(v / 0x100);
    }
  }

  /** The block option the engine writes into the next block request. */
  function BlockOption(number: uint16, blockNumber: nat, more: bool, szx: nat): CoapOption
    requires szx < 8
  {
    CoapOption(number, EncodeUint(BlockValue(blockNumber, more, szx)))
  }

  /**
   * The options of the next block request, built from the previous
   * request's options: copying stops at the first empty option; the new
   * block option goes before the first option numbered at or above it,
   * replacing that option when it is itself Block1 or Block2; otherwise
   * it goes last.
   */
  function NextBlockOptions(options: seq<CoapOption>, blockNumber: uint16, block: CoapOption, placed: bool): seq<CoapOption>
  {
    if options == [] || |options[0].value| == 0 then
      (if placed then [] else [block])
    else if options[0].number >= blockNumber && !placed then
      [block] + (if options[0].number == OptionBlock1 || options[0].number == OptionBlock2 then [] else [options[0]])
      + NextBlockOptions(options[1..], blockNumber, block, true)
    else
      [options[0]] + NextBlockOptions(options[1..], blockNumber, block, placed)
  }

  /** The option numbers do not decrease (the order CoAP requires). */
  predicate Ordered(options: seq<CoapOption>)
  {
    forall i, j | 0 <= i < j < |options| :: options[i].number <= options[j].number
  }

  lemma OrderedConcat(a: seq<CoapOption>, b: seq<CoapOption>)
    requires Ordered(a) && Ordered(b)
    requires forall x, y | x in a && y in b :: x.number <= y.number
    ensures Ordered(a + b)
  {
    forall i, j | 0 <= i < j < |a + b| ensures (a + b)[i].number <= (a + b)[j].number {
      if j < |a| {
      } else if i >= |a| {
        assert (a + b)[i] == b[i - |a|] && (a + b)[j] == b[j - |a|];
      } else {
        assert (a + b)[i] in a && (a + b)[j] in b;
      }
    }
  }

  /** The next request's options come from the previous request's, plus the block option. */
  lemma {:induction false} NextBlockOptionsFrom(options: seq<CoapOption>, blockNumber: uint16, block: CoapOption, placed: bool)
    ensures forall o | o in NextBlockOptions(options, blockNumber, block, placed) ::
              o in options || (!placed && o == block)
  {
    if options != [] && |options[0].value| != 0 {
      NextBlockOptionsStep(options, blockNumber, block, placed);
      if options[0].number >= blockNumber && !placed {
        NextBlockOptionsFrom(options[1..], blockNumber, block, true);
      } else {
        NextBlockOptionsFrom(options[1..], blockNumber, block, placed);
      }
    }
  }

  /**
   * When the previous request's options are in order, so are the next
   * request's: the block option lands between the options numbered below
   * it and those numbered at or above it.
   */
  lemma {:induction false} NextBlockOptionsOrdered(options: seq<CoapOption>, blockNumber: uint16, block: CoapOption, placed: bool)
    requires Ordered(options) && block.number == blockNumber
    requires placed ==> forall i | 0 <= i < |options| :: options[i].number >= blockNumber
    ensures Ordered(NextBlockOptions(options, blockNumber, block, placed))
  {
    if options != [] && |options[0].value| != 0 {
      NextBlockOptionsStep(options, blockNumber, block, placed);
      var rest, first := options[1..], options[0];
      assert Ordered(rest);
      assert forall k | 0 <= k < |rest| :: rest[k] == options[k + 1];
      if first.number >= blockNumber && !placed {
        NextBlockOptionsOrdered(rest, blockNumber, block, true);
        var tail := NextBlockOptions(rest, blockNumber, block, true);
        NextBlockOptionsFrom(rest, blockNumber, block, true);
        var head := [block] + (if first.number == OptionBlock1 || first.number == OptionBlock2 then [] else [first]);
        OrderedConcat(head, tail);
      } else {
        NextBlockOptionsOrdered(rest, blockNumber, block, placed);
        var tail := NextBlockOptions(rest, blockNumber, block, placed);
        NextBlockOptionsFrom(rest, blockNumber, block, placed);
        OrderedConcat([first], tail);
      }
    }
  }

  /** The next block request always carries the new block option. */
  lemma {:induction false} NextBlockOptionsCarryBlock(options: seq<CoapOption>, blockNumber: uint16, block: CoapOption, placed: bool)
    ensures !placed ==> block in NextBlockOptions(options, blockNumber, block, placed)
  {
    if options == [] || |options[0].value| == 0 {
    } else if options[0].number >= blockNumber && !placed {
    } else {
      NextBlockOptionsCarryBlock(options[1..], blockNumber, block, placed);
    }
  }

  lemma NextBlockOptionsStep(options: seq<CoapOption>, blockNumber: uint16, block: CoapOption, placed: bool)
    requires options != [] && |options[0].value| != 0
    ensures NextBlockOptions(options, blockNumber, block, placed)
            == if options[0].number >= blockNumber && !placed then
                 [block] + (if options[0].number == OptionBlock1 || options[0].number == OptionBlock2 then [] else [options[0]])
                 + NextBlockOptions(options[1..], blockNumber, block, true)
               else
                 [options[0]] + NextBlockOptions(options[1..], blockNumber, block, placed)
  {
  }

  /**
   * PrepareNextBlockRequest's option copy: Parse when the previous
   * request's options do not parse, otherwise the options of the next
   * block request (block number one past the received one, the received
   * block size).
   */
  method PrepareNextBlockOptions(isBlock1: bool, more: bool, oldRequest: Message, receivedNumber: nat, receivedSzx: nat)
    returns (error: Error, options: seq<CoapOption>)
    requires receivedSzx < 8
    ensures var blockNumber := if isBlock1 then OptionBlock1 else OptionBlock2;
            var block := BlockOption(blockNumber, receivedNumber + 1, more, receivedSzx);
            (error == Parse <==> !oldRequest.optionsWellFormed)
            && (error == NoError ==> options == NextBlockOptions(oldRequest.options, blockNumber, block, false))
            && (error == NoError || error == Parse)
  {
    var blockNumber := if isBlock1 then OptionBlock1 else OptionBlock2;
    var block := BlockOption(blockNumber, receivedNumber + 1, more, receivedSzx);
    if !oldRequest.optionsWellFormed {
      return Parse, [];
    }
    options := CopyOptionsAroundBlock(oldRequest.options, blockNumber, block);
    return NoError, options;
  }

  /** The copy loop of PrepareNextBlockRequest. */
  method CopyOptionsAroundBlock(previous: seq<CoapOption>, blockNumber: uint16, block: CoapOption)
    returns (options: seq<CoapOption>)
    ensures options == NextBlockOptions(previous, blockNumber, block, false)
  {
    options := [];
    var placed := false;
    var i := 0;
    assert previous[0..] == previous;
    while i < |previous| && |previous[i].value| != 0
      invariant CopyProgress(previous, blockNumber, block, i, placed, options)
      decreases |previous| - i
    {
      placed, options := CopyOption(previous, blockNumber, block, i, placed, options);
      i := i + 1;
    }
    CopyDone(previous, blockNumber, block, i, placed, options);
    options := options + (if placed then [] else [block]);
  }

  /** One option of the copy loop: the block option goes before the first option not below its number. */
  method CopyOption(previous: seq<CoapOption>, blockNumber: uint16, block: CoapOption, i: nat, placed: bool,
                    options: seq<CoapOption>)
    returns (placed': bool, options': seq<CoapOption>)
    requires CopyProgress(previous, blockNumber, block, i, placed, options)
    requires i < |previous| && |previous[i].value| != 0
    ensures CopyProgress(previous, blockNumber, block, i + 1, placed', options')
  {
    CopyStep(previous, blockNumber, block, i, placed, options);
    var option := previous[i];
    if option.number >= blockNumber && !placed {
      options' := options + [block] + (if option.number == OptionBlock1 || option.number == OptionBlock2 then [] else [option]);
      placed' := true;
    } else {
      options', placed' := options + [option], placed;
    }
  }

  /** The copy after i options: what is copied, followed by the rest's copy, is the whole copy. */
  ghost predicate CopyProgress(previous: seq<CoapOption>, blockNumber: uint16, block: CoapOption, i: nat, placed: bool,
                               options: seq<CoapOption>)
  {
    i <= |previous|
    && options + NextBlockOptions(previous[i..], blockNumber, block, placed)
       == NextBlockOptions(previous, blockNumber, block, false)
  }

  lemma CopyStep(previous: seq<CoapOption>, blockNumber: uint16, block: CoapOption, i: nat, placed: bool,
                 options: seq<CoapOption>)
    requires CopyProgress(previous, blockNumber, block, i, placed, options)
    requires i < |previous| && |previous[i].value| != 0
    ensures var o := previous[i];
            if o.number >= blockNumber && !placed then
              CopyProgress(previous, blockNumber, block, i + 1, true,
                           options + [block] + (if o.number == OptionBlock1 || o.number == OptionBlock2 then [] else [o]))
            else CopyProgress(previous, blockNumber, block, i + 1, placed, options + [o])
  {
    var rest := previous[i..];
    NextBlockOptionsStep(rest, blockNumber, block, placed);
    assert rest[0] == previous[i] && rest[1..] == previous[i + 1..];
    var o := previous[i];
    var tail := NextBlockOptions(previous[i + 1..], blockNumber, block, o.number >= blockNumber || placed);
    var head := if o.number >= blockNumber && !placed then
                  [block] + (if o.number == OptionBlock1 || o.number == OptionBlock2 then [] else [o])
                else [o];
    assert NextBlockOptions(rest, blockNumber, block, placed) == head + tail;
    ConcatAssociates(options, head, tail);
  }

  lemma CopyDone(previous: seq<CoapOption>, blockNumber: uint16, block: CoapOption, i: nat, placed: bool,
                 options: seq<CoapOption>)
    requires CopyProgress(previous, blockNumber, block, i, placed, options)
    requires i == |previous| || |previous[i].value| == 0
    ensures options + (if placed then [] else [block]) == NextBlockOptions(previous, blockNumber, block, false)
  {
    assert previous[i..] == [] || |previous[i..][0].value| == 0;
  }

  /**
   * ProcessBlock1Request's outcome on the server: NoBufs for a payload
   * longer than the block buffer, the receive hook's error, Failed when no
   * Continue acknowledgment can be allocated, Busy while more blocks are
   * expected, NoError on the last block.
   */
  function Block1Outcome(payloadLength: nat, hookResult: Error, more: bool, allocates: bool, sendResult: Error): (error: Error)
    ensures error == NoError <==> payloadLength <= MaxBlockLength && hookResult == NoError && !more
    ensures error == Busy <==> payloadLength <= MaxBlockLength
                               && (hookResult == Busy
                                   || (hookResult == NoError && more && allocates
                                       && (sendResult == NoError || sendResult == Busy)))
  {
    if payloadLength > MaxBlockLength then NoBufs
    else if hookResult != NoError then hookResult
    else if more then
      (if !allocates then Failed else if sendResult != NoError then sendResult else Busy)
    else NoError
  }

  /** How ProcessReceivedRequest answers a Block1 request, given the block outcome. */
  datatype Block1Reply = HandOver | Accepted | HeaderResponse(code: uint8)

  function Block1ReplyFor(outcome: Error): (reply: Block1Reply)
    ensures reply.HeaderResponse? <==> outcome != NoError && outcome != Busy
    ensures reply == HeaderResponse(CodeRequestTooLarge) <==> outcome == NoBufs
    ensures reply == HeaderResponse(CodeRequestIncomplete) <==> outcome == NoFrameReceived
  {
    match outcome
    case NoError => HandOver
    case Busy => Accepted
    case NoBufs => HeaderResponse(CodeRequestTooLarge)
    case NoFrameReceived => HeaderResponse(CodeRequestIncomplete)
    case _ => HeaderResponse(CodeInternalError)
  }

  /** Block1: the request reaches the resource handler only once its last block arrived. */
  lemma Block1HandedOverOnlyWhenComplete(payloadLength: nat, hookResult: Error, more: bool, allocates: bool, sendResult: Error)
    ensures Block1ReplyFor(Block1Outcome(payloadLength, hookResult, more, allocates, sendResult)) == HandOver
            <==> payloadLength <= MaxBlockLength && hookResult == NoError && !more
  {
  }

  /** The Block2 response the server sends: block number, more flag, size exponent, payload length. */
  datatype Block2Reply = Block2Reply(number: nat, more: bool, szx: nat, payloadLength: nat)

  datatype Block2Outcome = FirstBlockToResource | Reply(reply: Block2Reply) | Refused(error: Error)

  /**
   * ProcessBlock2Request: block 0 goes to the resource; otherwise the
   * transmit hook fills the block, its length picks the new size when more
   * blocks follow (only exact sizes 16..1024), and must fit the requested
   * size on the last block; the block number is rescaled to the new size.
   */
  function Block2Response(number: nat, szx: nat, allocates: bool, hookResult: Error, length: nat, more: bool)
    : (r: Block2Outcome)
    requires szx < 8
    ensures r.Reply? ==> r.reply.payloadLength == length && r.reply.more == more
                         && length <= BlockSize(r.reply.szx) <= MaxBlockLength
                         && r.reply.number * BlockSize(r.reply.szx) <= Mul(BlockSize(szx), number)
                         && Mul(BlockSize(szx), number) < (r.reply.number + 1) * BlockSize(r.reply.szx)
    ensures r == Refused(InvalidArgs) <==> number != 0 && allocates && BlockSize(szx) <= MaxBlockLength
                                            && (hookResult == InvalidArgs
                                                || (hookResult == NoError
                                                    && if more then SzxForLength(length).None?
                                                       else length > BlockSize(szx)))
  {
    if number == 0 then FirstBlockToResource
    else if !allocates then Refused(NoBufs)
    else if BlockSize(szx) > MaxBlockLength then Refused(NoBufs)
    else if hookResult != NoError then Refused(hookResult)
    else if more then
      match SzxForLength(length)
      case None => Refused(InvalidArgs)
      case Some(newSzx) =>
        SzxForLengthWithinBuffer(length);
        RescaledBlockContainsOffset(szx, number, newSzx);
        Reply(Block2Reply(RescaledBlockNumber(szx, number, newSzx), true, newSzx, length))
    else if length > BlockSize(szx) then Refused(InvalidArgs)
    else
      RescaledBlockContainsOffset(szx, number, szx);
      Reply(Block2Reply(RescaledBlockNumber(szx, number, szx), false, szx, length))
  }

  /** With no change of size, Block2 answers exactly the block that was asked for. */
  lemma Block2SameSizeKeepsNumber(number: nat, szx: nat, hookResult: Error, length: nat)
    requires szx < 8
    requires Block2Response(number, szx, true, hookResult, length, false).Reply?
    ensures Block2Response(number, szx, true, hookResult, length, false).reply.number == number
  {
    MulDivCancel(BlockSize(szx), number);
    assert RescaledBlockNumber(szx, number, szx) == number;
  }
}
