/**
 * ProcessReceivedResponse's decisions: what a received response, empty
 * acknowledgment, reset or separate response does to the pending request
 * it is related to (sections 4.2, 4.3 and 5.2 of RFC 7252, section 3 of
 * RFC 7641, section 2 of RFC 7959).
 */
module CoapReactions {
  import opened Common
  import opened Ip6Address
  import opened CoapTypes
  import opened CoapPending

  // ---------------------------------------------------------------------
  // Block-wise continuation of a piggybacked response
  // ---------------------------------------------------------------------

  /**
   * What SendNextBlock1Request or SendNextBlock2Request did: stopped with
   * an error before touching the table, finalized the transaction on its
   * last block, or dequeued the request (Block1, and Block2 outside a
   * combined transfer) and handed the next block to SendMessage.
   */
  datatype Continuation = StoppedEarly(error: Error) | LastBlock | Continued(sendResult: Error)

  datatype BlockAction = DequeueRequest | InvokeHandler(result: Error) | SendNextBlock(result: Error)

  function ContinuationError(c: Continuation): Error
  {
    match c
    case StoppedEarly(error) => error
    case LastBlock => NoError
    case Continued(sendResult) => sendResult
  }

  function ContinuationActions(c: Continuation, dequeueOnContinue: bool): seq<BlockAction>
  {
    match c
    case StoppedEarly(_) => []
    case LastBlock => [DequeueRequest, InvokeHandler(NoError)]
    case Continued(sendResult) => (if dequeueOnContinue then [DequeueRequest] else []) + [SendNextBlock(sendResult)]
  }

  /** FinalizeCoapTransaction: dequeue, then call the handler. */
  function FinalizeActions(result: Error): seq<BlockAction>
  {
    [DequeueRequest, InvokeHandler(result)]
  }

  /**
   * The switch on the block option type as written: 0 finalizes; 1
   * (Block1) continues on 2.31 Continue with a transmit hook, 2 (Block2)
   * continues on a success code with a receive hook, and both finalize
   * when they do not continue or the continuation failed; 3 continues like
   * 2 without dequeuing and then always finalizes; anything else aborts.
   */
  function BlockResponseActions(blockType: nat, code: uint8, transmitHook: bool, receiveHook: bool, c: Continuation)
    : seq<BlockAction>
  {
    if blockType == 0 then FinalizeActions(NoError)
    else if blockType == 1 || blockType == 2 || blockType == 3 then
      var continues := if blockType == 1 then code == CodeContinue && transmitHook
                       else code < CodeBadRequest && receiveHook;
      var before := if continues then ContinuationActions(c, blockType != 3) else [];
      var error := if continues then ContinuationError(c) else NoError;
      before + (if blockType == 3 || !continues || error != NoError then FinalizeActions(error) else [])
    else FinalizeActions(Abort)
  }

  function Count(a: BlockAction, s: seq<BlockAction>): nat
  {
    if s == [] then 0 else (if s[0] == a then 1 else 0) + Count(a, s[1..])
  }

  function Handled(s: seq<BlockAction>): nat
  {
    if s == [] then 0 else (if s[0].InvokeHandler? then 1 else 0) + Handled(s[1..])
  }

  /**
   * A failed next-block send after the request was dequeued, and the last
   * block of a combined Block1/Block2 transfer, both finalize the request a
   * second time: it is dequeued (and freed) twice and, in the second case,
   * its handler runs twice.
   */
  lemma BlockResponseFinalizesTwice()
    ensures Count(DequeueRequest, BlockResponseActions(1, CodeContinue, true, false, Continued(NoBufs))) == 2
    ensures Count(DequeueRequest, BlockResponseActions(2, CodeContent, false, true, Continued(NoBufs))) == 2
    ensures var a := BlockResponseActions(3, CodeContent, false, true, LastBlock);
            Count(DequeueRequest, a) == 2 && Handled(a) == 2
  {
    var a := BlockResponseActions(1, CodeContinue, true, false, Continued(NoBufs));
    assert a == [DequeueRequest, SendNextBlock(NoBufs)] + FinalizeActions(NoBufs);
    CountPairs(DequeueRequest, SendNextBlock(NoBufs), DequeueRequest, InvokeHandler(NoBufs));
    var a2 := BlockResponseActions(2, CodeContent, false, true, Continued(NoBufs));
    assert a2 == a;
    var b := BlockResponseActions(3, CodeContent, false, true, LastBlock);
    assert b == FinalizeActions(NoError) + FinalizeActions(NoError);
    CountPairs(DequeueRequest, InvokeHandler(NoError), DequeueRequest, InvokeHandler(NoError));
  }

  lemma CountPairs(w: BlockAction, x: BlockAction, y: BlockAction, z: BlockAction)
    ensures Count(DequeueRequest, [w, x] + [y, z]) == Count(DequeueRequest, [w, x]) + Count(DequeueRequest, [y, z])
    ensures Handled([w, x] + [y, z]) == Handled([w, x]) + Handled([y, z])
  {
    CountConcat(DequeueRequest, [w, x], [y, z]);
    assert [w, x][1..] == [x] && [y, z][1..] == [z];
  }

  /**
   * The switch with the request finalized once: a continuation that has
   * already finalized ends the transaction, one that dequeued the request
   * only reports the error to the handler.
   */
  function BlockResponseActionsCorrected(blockType: nat, code: uint8, transmitHook: bool, receiveHook: bool, c: Continuation)
    : (actions: seq<BlockAction>)
  {
    if blockType == 0 then FinalizeActions(NoError)
    else if blockType == 1 || blockType == 2 || blockType == 3 then
      var continues := if blockType == 1 then code == CodeContinue && transmitHook
                       else code < CodeBadRequest && receiveHook;
      var before := if continues then ContinuationActions(c, blockType != 3) else [];
      var error := if continues then ContinuationError(c) else NoError;
      if !(blockType == 3 || !continues || error != NoError) then before
      else if continues && c.LastBlock? then before
      else if DequeueRequest in before then before + [InvokeHandler(error)]
      else before + FinalizeActions(error)
    else FinalizeActions(Abort)
  }

  lemma CountConcat(a: BlockAction, s: seq<BlockAction>, t: seq<BlockAction>)
    ensures Count(a, s + t) == Count(a, s) + Count(a, t)
    ensures Handled(s + t) == Handled(s) + Handled(t)
  {
    if s == [] {
      assert s + t == t;
    } else {
      assert (s + t)[1..] == s[1..] + t;
      CountConcat(a, s[1..], t);
    }
  }

  /**
   * With the correction every block-wise response dequeues the request
   * exactly once and calls its handler at most once.
   */
  lemma BlockResponseFinalizesOnce(blockType: nat, code: uint8, transmitHook: bool, receiveHook: bool, c: Continuation)
    requires c.StoppedEarly? ==> c.error != NoError
    ensures var a := BlockResponseActionsCorrected(blockType, code, transmitHook, receiveHook, c);
            Count(DequeueRequest, a) == 1 && Handled(a) <= 1
  {
    var continues := if blockType == 1 then code == CodeContinue && transmitHook
                     else code < CodeBadRequest && receiveHook;
    var before := if continues then ContinuationActions(c, blockType != 3) else [];
    var error := if continues then ContinuationError(c) else NoError;
    var a := BlockResponseActionsCorrected(blockType, code, transmitHook, receiveHook, c);
    if blockType !in {1, 2, 3} {
      assert a == FinalizeActions(if blockType == 0 then NoError else Abort);
      FinalizeCounts(if blockType == 0 then NoError else Abort);
    } else {
      if continues {
        ContinuationCounts(c, blockType != 3);
      }
      var handled := Handled(before);
      if !(blockType == 3 || !continues || error != NoError) || (continues && c.LastBlock?) {
        assert a == before;
        assert DequeueRequest in before;
      } else if DequeueRequest in before {
        assert a == before + [InvokeHandler(error)];
        CountConcat(DequeueRequest, before, [InvokeHandler(error)]);
        assert Count(DequeueRequest, [InvokeHandler(error)]) == 0 && Handled([InvokeHandler(error)]) == 1;
        assert handled == 0;
      } else {
        assert a == before + FinalizeActions(error);
        CountConcat(DequeueRequest, before, FinalizeActions(error));
        FinalizeCounts(error);
        assert Count(DequeueRequest, before) == 0 && handled == 0;
      }
    }
  }

  lemma FinalizeCounts(result: Error)
    ensures Count(DequeueRequest, FinalizeActions(result)) == 1 && Handled(FinalizeActions(result)) == 1
  {
    var a := FinalizeActions(result);
    assert a[1..] == [InvokeHandler(result)] && a[1..][1..] == [];
  }

  /** A continuation dequeues at most once, and calls the handler only on the last block. */
  lemma ContinuationCounts(c: Continuation, dequeueOnContinue: bool)
    ensures var a := ContinuationActions(c, dequeueOnContinue);
            Count(DequeueRequest, a) == (if DequeueRequest in a then 1 else 0)
            && Handled(a) == (if c.LastBlock? then 1 else 0)
            && (c.LastBlock? || (c.Continued? && dequeueOnContinue) <==> DequeueRequest in a)
  {
    var a := ContinuationActions(c, dequeueOnContinue);
    if c.Continued? {
      if dequeueOnContinue {
        assert a == [DequeueRequest, SendNextBlock(c.sendResult)] && a[1..] == [SendNextBlock(c.sendResult)];
        assert a[1..][1..] == [] && Count(DequeueRequest, a[1..]) == 0 && Handled(a[1..]) == 0;
      } else {
        assert a == [SendNextBlock(c.sendResult)];
      }
    } else if c.LastBlock? {
      assert a[1..] == [InvokeHandler(NoError)] && a[1..][1..] == [];
      assert Count(DequeueRequest, a[1..]) == 0 && Handled(a[1..]) == 1;
    }
  }

  /** The handler result of a corrected action list, when it calls the handler. */
  function HandlerResult(actions: seq<BlockAction>): Option<Error>
  {
    if actions == [] then None
    else if actions[0].InvokeHandler? then Some(actions[0].result)
    else HandlerResult(actions[1..])
  }

  // ---------------------------------------------------------------------
  // The reaction to a received message related to a pending request
  // ---------------------------------------------------------------------

  /** What happens to the related pending entry. */
  datatype Update = Keep | Replace(entry: PendingRequest) | Remove

  datatype Reaction = Reaction(update: Update, effects: seq<Effect>)

  function Finalize(md: Metadata, response: Option<Message>, result: Error): Reaction
  {
    Reaction(Remove, FinalizeEffects(md, response, result))
  }

  /** The empty message SendEmptyMessage builds: refused unless the request is confirmable. */
  function EmptyReply(msgType: MessageType, request: Message): (reply: Option<Message>)
    ensures reply.Some? <==> IsConfirmable(request)
    ensures reply.Some? ==> reply.value.messageId == request.messageId && IsEmpty(reply.value)
                            && reply.value.msgType == msgType
  {
    if IsConfirmable(request) then Some(Message(msgType, CodeEmpty, request.messageId, [], [], true, 4)) else None
  }

  function ReplyEffects(reply: Option<Message>, info: MessageInfo): seq<Effect>
  {
    if reply.Some? then [Transmitted(reply.value, info.peerAddr, info.peerPort)] else []
  }

  /** Block1 counts 1 and Block2 counts 2, per option, in a uint8. */
  function BlockOptionType(options: seq<CoapOption>): uint8
  {
    if options == [] then 0
    else
      Wrap8((if options[0].number == OptionBlock1 then 1 else if options[0].number == OptionBlock2 then 2 else 0)
            + BlockOptionType(options[1..]))
  }

  /** A piggybacked response to a request that is not an RFC 7641 notification. */
  function PiggybackedReaction(e: PendingRequest, message: Message, c: Continuation): Reaction
  {
    var md := e.metadata;
    var hooks := md.transmitHook || md.receiveHook;
    if hooks && !message.optionsWellFormed then Reaction(Keep, [])
    else
      var blockType := if hooks then BlockOptionType(message.options) else 0;
      var actions := BlockResponseActionsCorrected(blockType, message.code, md.transmitHook, md.receiveHook, c);
      var result := HandlerResult(actions);
      Reaction(if DequeueRequest in actions then Remove else Keep,
               if result.Some? && HasHandler(md.handler)
               then [ResponseHandled(md.handler, Some(message), result.value)] else [])
  }

  /**
   * ProcessReceivedResponse for a message related to the pending entry e:
   * an Observe option that cannot be parsed ends processing; an empty RST
   * aborts the transaction; an empty ACK marks a confirmable request
   * acknowledged (or completes a notification) and drops a request nobody
   * waits a response for; a piggybacked response with the request's token
   * completes it, or is passed on as an RFC 7641 notification; a separate
   * response (CON, acknowledged first, or NON) is passed on without
   * completing a multicast request or a subscription, and completes any
   * other.
   */
  function ReactionTo(e: PendingRequest, message: Message, info: MessageInfo, c: Continuation): Reaction
  {
    var md := e.metadata;
    var observeCheck := md.observe && IsRequest(e.request);
    if observeCheck && !message.optionsWellFormed then Reaction(Keep, [])
    else
      var responseObserve := observeCheck && HasOption(message, OptionObserve);
      match message.msgType
      case Reset =>
        if IsEmpty(message) then Finalize(md, None, Abort) else Reaction(Keep, [])
      case Acknowledgment =>
        if IsEmpty(message) then
          if md.observe && !IsRequest(e.request) then Finalize(md, Some(message), NoError)
          else if !HasHandler(md.handler) then Reaction(Remove, [])
          else Reaction(Replace(PendingRequest(e.request, md.(acknowledged := md.acknowledged || md.confirmable))), [])
        else if IsResponse(message) && message.token == e.request.token then
          if md.observe && responseObserve && HasHandler(md.handler) then
            Reaction(Replace(PendingRequest(e.request, md.(acknowledged := true))),
                     [ResponseHandled(md.handler, Some(message), NoError)])
          else PiggybackedReaction(e, message, c)
        else Reaction(Keep, [])
      case _ =>
        var ack := if message.msgType == Confirmable then ReplyEffects(EmptyReply(Acknowledgment, message), info) else [];
        if HasHandler(md.handler) && (IsMulticast(md.destinationAddress) || (md.observe && responseObserve)) then
          Reaction(Keep, ack + [ResponseHandled(md.handler, Some(message), NoError)])
        else
          var done := Finalize(md, Some(message), NoError);
          Reaction(done.update, ack + done.effects)
  }

  /** An unmatched message gets a Reset, which SendEmptyMessage only builds for a CON message. */
  function UnmatchedEffects(message: Message, info: MessageInfo): (effects: seq<Effect>)
    ensures effects != [] <==> IsConfirmable(message)
  {
    ReplyEffects(EmptyReply(Reset, message), info)
  }

  /** The pending table after a reaction to entry k. */
  function Applied(pending: seq<PendingRequest>, k: nat, update: Update): seq<PendingRequest>
    requires k < |pending|
  {
    match update
    case Keep => pending
    case Replace(entry) => pending[k := entry]
    case Remove => RemoveAt(pending, k)
  }

  // ---------------------------------------------------------------------
  // Properties of the reactions
  // ---------------------------------------------------------------------

  /** An empty RST aborts the transaction: the entry goes and the handler hears Abort. */
  lemma EmptyResetAborts(e: PendingRequest, message: Message, info: MessageInfo, c: Continuation)
    requires message.msgType == Reset && IsEmpty(message)
    requires !(e.metadata.observe && IsRequest(e.request)) || message.optionsWellFormed
    ensures ReactionTo(e, message, info, c) == Reaction(Remove, FinalizeEffects(e.metadata, None, Abort))
  {
  }

  /**
   * An empty ACK to a request: the entry leaves exactly when no handler
   * waits for the separate response; otherwise it stays, acknowledged if
   * it was confirmable, with no handler call and nothing else changed.
   */
  lemma EmptyAckAcknowledges(e: PendingRequest, message: Message, info: MessageInfo, c: Continuation)
    requires message.msgType == Acknowledgment && IsEmpty(message) && IsRequest(e.request)
    requires !e.metadata.observe || message.optionsWellFormed
    ensures var r := ReactionTo(e, message, info, c);
            r.effects == []
            && (r.update == Remove <==> !HasHandler(e.metadata.handler))
            && (r.update != Remove ==>
                  r.update.Replace? && r.update.entry.request == e.request
                  && r.update.entry.metadata == e.metadata.(acknowledged := e.metadata.acknowledged || e.metadata.confirmable))
  {
  }

  /**
   * A separate response to a multicast request or to an RFC 7641
   * subscription is passed to the handler and leaves the request pending;
   * a CON one is acknowledged first.
   */
  lemma SeparateResponseKeepsOpenRequest(e: PendingRequest, message: Message, info: MessageInfo, c: Continuation)
    requires message.msgType == Confirmable || message.msgType == NonConfirmable
    requires !(e.metadata.observe && IsRequest(e.request)) || message.optionsWellFormed
    requires HasHandler(e.metadata.handler)
    requires IsMulticast(e.metadata.destinationAddress)
             || (e.metadata.observe && IsRequest(e.request) && HasOption(message, OptionObserve))
    ensures var r := ReactionTo(e, message, info, c);
            r.update == Keep
            && r.effects[|r.effects| - 1] == ResponseHandled(e.metadata.handler, Some(message), NoError)
            && (message.msgType == Confirmable <==> |r.effects| == 2)
  {
  }

  /** A separate response to any other request completes it. */
  lemma SeparateResponseCompletes(e: PendingRequest, message: Message, info: MessageInfo, c: Continuation)
    requires message.msgType == Confirmable || message.msgType == NonConfirmable
    requires !(e.metadata.observe && IsRequest(e.request)) || message.optionsWellFormed
    requires !IsMulticast(e.metadata.destinationAddress) && !e.metadata.observe
    ensures ReactionTo(e, message, info, c).update == Remove
  {
  }

  /** Whatever arrives, a reaction calls the response handler at most once. */
  lemma ReactionHandlesAtMostOnce(e: PendingRequest, message: Message, info: MessageInfo, c: Continuation)
    ensures |ReactionTo(e, message, info, c).effects| <= 2
    ensures forall i, j | 0 <= i < j < |ReactionTo(e, message, info, c).effects| ::
              !(ReactionTo(e, message, info, c).effects[i].ResponseHandled?
                && ReactionTo(e, message, info, c).effects[j].ResponseHandled?)
  {
  }

  /** A reaction never adds an entry to the table and never changes another entry. */
  lemma AppliedChangesOnlyEntry(pending: seq<PendingRequest>, k: nat, update: Update)
    requires k < |pending|
    ensures |Applied(pending, k, update)| <= |pending|
    ensures update.Keep? ==> Applied(pending, k, update) == pending
    ensures update.Replace? ==> forall i | 0 <= i < |pending| && i != k :: Applied(pending, k, update)[i] == pending[i]
  {
  }
}
