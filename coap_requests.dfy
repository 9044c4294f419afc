/**
 * The server side of CoapBase::ProcessReceivedRequest: collecting the
 * Uri-Path options into one path and counting the block options, then
 * choosing who handles the request (a block-wise resource, the resource
 * handler, a plain resource, the default handler) or which header-only
 * response answers it.
 */
module CoapRequests {
  import opened Common
  import opened Ip6Address
  import opened CoapTypes
  import opened CoapPending
  import opened CoapBlockwise
  import opened CoapReactions

  /** Message::kMaxReceivedUriPath: the longest path a request may name, in bytes. */
  const MaxReceivedUriPath: nat := 32
  const Slash: uint8 := 0x2f

  // ---------------------------------------------------------------------
  // The URI path of a request
  // ---------------------------------------------------------------------

  /** The Uri-Path option values, in the order they appear. */
  function UriSegments(options: seq<CoapOption>): seq<seq<uint8>>
  {
    if options == [] then []
    else
      var n := |options| - 1;
      UriSegments(options[..n]) + (if options[n].number == OptionUriPath then [options[n].value] else [])
  }

  function DropLeadingEmpty(segments: seq<seq<uint8>>): (rest: seq<seq<uint8>>)
    ensures rest != [] ==> rest[0] != []
  {
    if segments == [] || segments[0] != [] then segments else DropLeadingEmpty(segments[1..])
  }

  /** The segments joined by '/'. */
  function Join(segments: seq<seq<uint8>>): seq<uint8>
  {
    if segments == [] then []
    else if |segments| == 1 then segments[0]
    else segments[0] + [Slash] + Join(segments[1..])
  }

  /**
   * The path a request names: its Uri-Path segments joined by '/'. The
   * separator is written only once the path is non-empty, so empty leading
   * segments vanish.
   */
  function UriPath(options: seq<CoapOption>): seq<uint8>
  {
    Join(DropLeadingEmpty(UriSegments(options)))
  }

  /** One Uri-Path option appended to the path built so far. */
  function AppendSegment(path: seq<uint8>, segment: seq<uint8>): seq<uint8>
  {
    (if path == [] then [] else path + [Slash]) + segment
  }

  /** The amount one option adds to the block option type: 1 for Block1, 2 for Block2. */
  function BlockIncrement(option: CoapOption): nat
  {
    if option.number == OptionBlock1 then 1 else if option.number == OptionBlock2 then 2 else 0
  }

  /**
   * The option loop of ProcessReceivedRequest: Parse when the options do
   * not parse or the path does not fit the kMaxReceivedUriPath buffer,
   * otherwise the path and the block option type (1: Block1, 2: Block2,
   * 3: both).
   */
  method ScanRequestOptions(request: Message) returns (error: Error, path: seq<uint8>, blockType: uint8)
    ensures error == NoError || error == Parse
    ensures error == Parse <==> !request.optionsWellFormed || |UriPath(request.options)| > MaxReceivedUriPath
    ensures error == NoError ==> path == UriPath(request.options) && blockType == BlockOptionType(request.options)
    ensures |path| <= MaxReceivedUriPath
  {
    error, path, blockType := NoError, [], 0;
    if !request.optionsWellFormed {
      return Parse, path, blockType;
    }
    var options := request.options;
    var i := 0;
    while i < |options|
      invariant 0 <= i <= |options|
      invariant path == UriPath(options[..i]) && |path| <= MaxReceivedUriPath
      invariant blockType == BlockOptionType(options[..i])
    {
      UriPathStep(options, i);
      BlockOptionTypeStep(options, i);
      var option := options[i];
      if option.number == OptionUriPath {
        var next := AppendSegment(path, option.value);
        if |next| > MaxReceivedUriPath {
          UriPathGrows(options, i + 1);
          return Parse, path, blockType;
        }
        path := next;
      } else if option.number == OptionBlock1 {
        blockType := Wrap8(blockType + 1);
      } else if option.number == OptionBlock2 {
        blockType := Wrap8(blockType + 2);
      }
      i := i + 1;
    }
    assert options[..i] == options;
  }

  /** The loop's step: the path after one more option. */
  lemma UriPathStep(options: seq<CoapOption>, i: nat)
    requires i < |options|
    ensures UriPath(options[..i + 1])
            == if options[i].number == OptionUriPath then AppendSegment(UriPath(options[..i]), options[i].value)
               else UriPath(options[..i])
  {
    assert options[..i + 1][..i] == options[..i];
    var segments := UriSegments(options[..i]);
    if options[i].number == OptionUriPath {
      assert UriSegments(options[..i + 1]) == segments + [options[i].value];
      JoinAppend(segments, options[i].value);
    } else {
      assert UriSegments(options[..i + 1]) == segments + [];
      assert segments + [] == segments;
    }
  }

  /** Joining one more segment appends it after a separator, unless the path is still empty. */
  lemma JoinAppend(segments: seq<seq<uint8>>, segment: seq<uint8>)
    ensures Join(DropLeadingEmpty(segments + [segment])) == AppendSegment(Join(DropLeadingEmpty(segments)), segment)
  {
    DropLeadingEmptyAppend(segments, segment);
    var rest := DropLeadingEmpty(segments);
    if rest != [] {
      JoinSnoc(rest, segment);
      assert Join(rest) != [] by {
        JoinStartsWithFirst(rest);
      }
    }
  }

  lemma {:induction false} DropLeadingEmptyAppend(segments: seq<seq<uint8>>, segment: seq<uint8>)
    ensures DropLeadingEmpty(segments + [segment])
            == if DropLeadingEmpty(segments) == [] then (if segment == [] then [] else [segment])
               else DropLeadingEmpty(segments) + [segment]
  {
    if segments != [] {
      assert (segments + [segment])[1..] == segments[1..] + [segment];
      if segments[0] == [] {
        DropLeadingEmptyAppend(segments[1..], segment);
      }
    }
  }

  lemma {:induction false} JoinSnoc(segments: seq<seq<uint8>>, segment: seq<uint8>)
    requires segments != []
    ensures Join(segments + [segment]) == Join(segments) + [Slash] + segment
  {
    if |segments| > 1 {
      assert (segments + [segment])[1..] == segments[1..] + [segment];
      JoinSnoc(segments[1..], segment);
    }
  }

  lemma JoinStartsWithFirst(segments: seq<seq<uint8>>)
    requires segments != []
    ensures |Join(segments)| >= |segments[0]|
  {
  }

  /** The path never shrinks as options are added. */
  lemma {:induction false} UriPathGrows(options: seq<CoapOption>, i: nat)
    requires i <= |options|
    ensures |UriPath(options[..i])| <= |UriPath(options)|
    decreases |options| - i
  {
    if i < |options| {
      UriPathStep(options, i);
      UriPathGrows(options, i + 1);
    } else {
      assert options[..i] == options;
    }
  }

  lemma BlockOptionTypeStep(options: seq<CoapOption>, i: nat)
    requires i < |options|
    ensures BlockOptionType(options[..i + 1]) == Wrap8(BlockOptionType(options[..i]) + BlockIncrement(options[i]))
  {
    BlockOptionTypeSnoc(options[..i], options[i]);
    assert options[..i] + [options[i]] == options[..i + 1];
  }

  lemma {:induction false} BlockOptionTypeSnoc(options: seq<CoapOption>, option: CoapOption)
    ensures BlockOptionType(options + [option]) == Wrap8(BlockOptionType(options) + BlockIncrement(option))
  {
    if options == [] {
      assert [option][1..] == [];
    } else {
      assert (options + [option])[1..] == options[1..] + [option];
      BlockOptionTypeSnoc(options[1..], option);
      var a, b := BlockIncrement(options[0]), BlockOptionType(options[1..]);
      assert BlockOptionType(options) == Wrap8(a + b);
      Wrap8Regroup(a, b, BlockIncrement(option));
    }
  }

  lemma Wrap8Regroup(a: nat, b: nat, c: nat)
    ensures Wrap8(a + Wrap8(b + c)) == Wrap8(Wrap8(a + b) + c)
  {
    var k, l := (b + c) / 0x100, (a + b) / 0x100;
    assert a + Wrap8(b + c) == (a + b + c) - 0x100 * k;
    assert Wrap8(a + b) + c == (a + b + c) - 0x100 * l;
    ModShift(a + b + c, k);
    ModShift(a + b + c, l);
  }

  lemma ModShift(x: int, k: int)
    ensures (x - 0x100 * k) % 0x100 == x % 0x100
  {
  }

  // ---------------------------------------------------------------------
  // Dispatch
  // ---------------------------------------------------------------------

  /** A block-wise resource: its path and whether it has a Block1 receive hook and a Block2 transmit hook. */
  datatype BlockResource = BlockResource(uriPath: seq<uint8>, receiveHook: bool, transmitHook: bool)

  /**
   * The handlers registered with the instance. The resource handler is
   * None when none is set, otherwise whether it claims this request.
   */
  datatype Handlers = Handlers(
    blockResources: seq<BlockResource>,
    resourceHandler: Option<bool>,
    resources: seq<seq<uint8>>,
    defaultHandler: bool)

  /** Who gets the request, which header-only response code answers it, and the error that results. */
  datatype Dispatch = Dispatch(target: Option<DispatchTarget>, reply: Option<uint8>, error: Error)

  function FirstBlockResource(resources: seq<BlockResource>, path: seq<uint8>): (k: Option<nat>)
    ensures k.Some? ==> k.value < |resources| && resources[k.value].uriPath == path
                        && forall j | 0 <= j < k.value :: resources[j].uriPath != path
    ensures k.None? <==> forall j | 0 <= j < |resources| :: resources[j].uriPath != path
  {
    if resources == [] then None
    else if resources[0].uriPath == path then Some(0)
    else
      var k := FirstBlockResource(resources[1..], path);
      if k.Some? then Some(k.value + 1) else None
  }

  function FirstResource(resources: seq<seq<uint8>>, path: seq<uint8>): (k: Option<nat>)
    ensures k.Some? ==> k.value < |resources| && resources[k.value] == path
                        && forall j | 0 <= j < k.value :: resources[j] != path
    ensures k.None? <==> forall j | 0 <= j < |resources| :: resources[j] != path
  {
    if resources == [] then None
    else if resources[0] == path then Some(0)
    else
      var k := FirstResource(resources[1..], path);
      if k.Some? then Some(k.value + 1) else None
  }

  /** What ProcessBlock2Request returns, from the block it chose and the result of sending it. */
  function Block2Result(block2: Block2Outcome, sendResult: Error): Error
  {
    match block2
    case FirstBlockToResource => NoError
    case Reply(_) => sendResult
    case Refused(error) => error
  }

  /**
   * A request whose path names block-wise resource k: with a hook for the
   * block option it carries, the block is processed and only a complete
   * Block1 transfer (or Block2's first block) reaches the resource; a
   * failure is answered 4.13, 4.08 or 5.00 and the request dropped. Without
   * a block option or hooks the resource gets the request.
   */
  function BlockWiseDispatch(k: nat, r: BlockResource, blockType: uint8, block1Result: Error,
                             block2: Block2Outcome, block2SendResult: Error): Dispatch
  {
    if (r.receiveHook || r.transmitHook) && blockType != 0 then
      if blockType == 1 && r.receiveHook then
        match Block1ReplyFor(block1Result)
        case HandOver => Dispatch(Some(BlockWiseResource(k)), None, NoError)
        case Accepted => Dispatch(None, None, NoError)
        case HeaderResponse(code) => Dispatch(None, Some(code), Drop)
      else if blockType == 2 && r.transmitHook then
        if Block2Result(block2, block2SendResult) != NoError then Dispatch(None, Some(CodeInternalError), Drop)
        else if block2.FirstBlockToResource? then Dispatch(Some(BlockWiseResource(k)), None, NoError)
        else Dispatch(None, None, NoError)
      else Dispatch(None, None, NoError)
    else Dispatch(Some(BlockWiseResource(k)), None, NoError)
  }

  /** The dispatch of a request whose path fits, in the order the handlers are consulted. */
  function DispatchFor(path: seq<uint8>, blockType: uint8, sockAddr: Address, handlers: Handlers,
                       block1Result: Error, block2: Block2Outcome, block2SendResult: Error): Dispatch
  {
    match FirstBlockResource(handlers.blockResources, path)
    case Some(k) => BlockWiseDispatch(k, handlers.blockResources[k], blockType, block1Result, block2, block2SendResult)
    case None =>
      if handlers.resourceHandler == Some(true) then Dispatch(Some(ResourceHandler), None, NoError)
      else
        match FirstResource(handlers.resources, path)
        case Some(k) => Dispatch(Some(Resource(k)), None, NoError)
        case None =>
          if handlers.defaultHandler then Dispatch(Some(DefaultHandler), None, NoError)
          else Dispatch(None, if IsMulticast(sockAddr) then None else Some(CodeNotFound), NotFound)
  }

  /** The dispatch of a request that the responses cache did not answer. */
  function RequestDispatch(request: Message, info: MessageInfo, handlers: Handlers, block1Result: Error,
                           block2: Block2Outcome, block2SendResult: Error): Dispatch
  {
    if !request.optionsWellFormed || |UriPath(request.options)| > MaxReceivedUriPath then Dispatch(None, None, Parse)
    else DispatchFor(UriPath(request.options), BlockOptionType(request.options), info.sockAddr, handlers,
                     block1Result, block2, block2SendResult)
  }

  /** The handler call a dispatch makes, if any. */
  function DispatchEffects(d: Dispatch): seq<Effect>
  {
    if d.target.Some? then [RequestDispatched(d.target.value)] else []
  }

  /**
   * The header-only response SendHeaderResponse builds for a request: an
   * acknowledgment carrying the request's message ID for a confirmable
   * request, a non-confirmable message (numbered when sent) for a
   * non-confirmable one, with the request's token either way.
   */
  function HeaderOnlyResponse(code: uint8, request: Message): (response: Message)
    requires IsConfirmable(request) || IsNonConfirmable(request)
    ensures response.code == code && response.token == request.token && response.options == []
    ensures IsConfirmable(request) <==> response.msgType == Acknowledgment
    ensures IsNonConfirmable(request) <==> response.msgType == NonConfirmable
    ensures IsConfirmable(request) ==> response.messageId == request.messageId
  {
    if IsConfirmable(request) then Message(Acknowledgment, code, request.messageId, request.token, [], true, 4 + |request.token|)
    else Message(NonConfirmable, code, 0, request.token, [], true, 4 + |request.token|)
  }

  /**
   * What the collaborators answer while a request is processed: the
   * interceptor (None when none is set), whether a cached response can be
   * copied and how sending it ends, the registered handlers, and the
   * results of the block-wise processing.
   */
  datatype RequestEnvironment = RequestEnvironment(
    interceptor: Option<Error>,
    cloneSucceeds: bool,
    transportResult: Error,
    handlers: Handlers,
    block1Result: Error,
    block2: Block2Outcome,
    block2SendResult: Error)

  /** What a header-only response meets on its way out: allocation, clock, random draw, cache and transport. */
  datatype ReplyEnvironment = ReplyEnvironment(allocates: bool, now: nat, random: uint32, cacheSucceeds: bool, sendResult: Error)

  // ---------------------------------------------------------------------
  // Properties of the dispatch
  // ---------------------------------------------------------------------

  /** A path longer than the buffer is a Parse error: nobody is called and nothing is answered. */
  lemma LongPathIsParseError(request: Message, info: MessageInfo, handlers: Handlers, block1Result: Error,
                             block2: Block2Outcome, block2SendResult: Error)
    requires |UriPath(request.options)| > MaxReceivedUriPath
    ensures RequestDispatch(request, info, handlers, block1Result, block2, block2SendResult) == Dispatch(None, None, Parse)
  {
  }

  /**
   * NotFound exactly when no handler of any kind takes the path; the 4.04
   * answer is sent only when the request did not arrive on a multicast address.
   */
  lemma NotFoundIffUnhandled(path: seq<uint8>, blockType: uint8, sockAddr: Address, handlers: Handlers,
                             block1Result: Error, block2: Block2Outcome, block2SendResult: Error)
    ensures var d := DispatchFor(path, blockType, sockAddr, handlers, block1Result, block2, block2SendResult);
            (d.error == NotFound <==>
               (forall j | 0 <= j < |handlers.blockResources| :: handlers.blockResources[j].uriPath != path)
               && handlers.resourceHandler != Some(true)
               && (forall j | 0 <= j < |handlers.resources| :: handlers.resources[j] != path)
               && !handlers.defaultHandler)
            && (d.reply == Some(CodeNotFound) <==> d.error == NotFound && !IsMulticast(sockAddr))
  {
    var d := DispatchFor(path, blockType, sockAddr, handlers, block1Result, block2, block2SendResult);
    var k := FirstBlockResource(handlers.blockResources, path);
    if k.Some? {
      var r := handlers.blockResources[k.value];
      assert d.error != NotFound && d.reply != Some(CodeNotFound) by {
        match Block1ReplyFor(block1Result)
        case HandOver =>
        case Accepted =>
        case HeaderResponse(code) =>
          assert code != CodeNotFound;
      }
    }
  }

  /** A block-wise resource with a matching path shadows every later handler. */
  lemma BlockResourceShadowsOthers(path: seq<uint8>, blockType: uint8, sockAddr: Address, handlers: Handlers,
                                   block1Result: Error, block2: Block2Outcome, block2SendResult: Error, j: nat)
    requires j < |handlers.blockResources| && handlers.blockResources[j].uriPath == path
    ensures var d := DispatchFor(path, blockType, sockAddr, handlers, block1Result, block2, block2SendResult);
            d.target.Some? ==> d.target.value.BlockWiseResource? && d.target.value.index <= j
                               && handlers.blockResources[d.target.value.index].uriPath == path
  {
  }

  /**
   * A Block1 request for a resource with a receive hook reaches the resource
   * only when the whole body has arrived; earlier blocks are acknowledged by
   * the block processing itself.
   */
  lemma Block1ReachesResourceOnlyWhenComplete(path: seq<uint8>, sockAddr: Address, handlers: Handlers,
                                              payloadLength: nat, hookResult: Error, more: bool, allocates: bool,
                                              sendResult: Error, block2: Block2Outcome, block2SendResult: Error)
    requires FirstBlockResource(handlers.blockResources, path).Some?
    requires handlers.blockResources[FirstBlockResource(handlers.blockResources, path).value].receiveHook
    ensures var d := DispatchFor(path, 1, sockAddr, handlers,
                                 Block1Outcome(payloadLength, hookResult, more, allocates, sendResult), block2, block2SendResult);
            d.target.Some? <==> payloadLength <= MaxBlockLength && hookResult == NoError && !more
  {
    Block1HandedOverOnlyWhenComplete(payloadLength, hookResult, more, allocates, sendResult);
  }

  /** A header-only response is sent only on failure: Drop after a block error, or 4.04. */
  lemma ReplyOnlyOnFailure(request: Message, info: MessageInfo, handlers: Handlers, block1Result: Error,
                           block2: Block2Outcome, block2SendResult: Error)
    ensures var d := RequestDispatch(request, info, handlers, block1Result, block2, block2SendResult);
            (d.reply.Some? ==> d.error == Drop || d.error == NotFound)
            && (d.error == Drop ==> d.reply.Some?)
            && (d.target.Some? ==> d.error == NoError && d.reply.None?)
  {
    var path := UriPath(request.options);
    if request.optionsWellFormed && |path| <= MaxReceivedUriPath {
      DispatchReplyOnlyOnFailure(path, BlockOptionType(request.options), info.sockAddr, handlers,
                                 block1Result, block2, block2SendResult);
    }
  }

  lemma DispatchReplyOnlyOnFailure(path: seq<uint8>, blockType: uint8, sockAddr: Address, handlers: Handlers,
                                   block1Result: Error, block2: Block2Outcome, block2SendResult: Error)
    ensures var d := DispatchFor(path, blockType, sockAddr, handlers, block1Result, block2, block2SendResult);
            (d.reply.Some? ==> d.error == Drop || d.error == NotFound)
            && (d.error == Drop ==> d.reply.Some?)
            && (d.target.Some? ==> d.error == NoError && d.reply.None?)
  {
    var k := FirstBlockResource(handlers.blockResources, path);
    if k.Some? {
      BlockWiseReplyOnlyOnFailure(k.value, handlers.blockResources[k.value], blockType,
                                  block1Result, block2, block2SendResult);
    }
  }

  lemma BlockWiseReplyOnlyOnFailure(k: nat, r: BlockResource, blockType: uint8, block1Result: Error,
                                    block2: Block2Outcome, block2SendResult: Error)
    ensures var d := BlockWiseDispatch(k, r, blockType, block1Result, block2, block2SendResult);
            (d.reply.Some? <==> d.error == Drop) && (d.error == NoError || d.error == Drop)
            && (d.target.Some? ==> d.error == NoError)
  {
    match Block1ReplyFor(block1Result)
    case HandOver =>
    case Accepted =>
    case HeaderResponse(code) =>
  }
}
