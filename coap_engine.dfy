/**
 * CoapBase: the CoAP transaction engine. It numbers outgoing messages,
 * keeps a copy of every request that awaits an acknowledgment or a
 * response, retransmits confirmable requests with exponential back-off
 * (section 4.2 of RFC 7252), matches received messages to their requests,
 * and answers duplicate requests from its responses cache.
 */
module CoapEngine {
  import opened Common
  import opened Ip6Address
  import opened CoapTypes
  import opened CoapTxParameters
  import opened CoapResponses
  import opened CoapPending
  import opened CoapReactions
  import opened CoapBlockwise
  import opened CoapRequests

  /** A GET that carries Observe = 1 cancels an RFC 7641 subscription. */
  predicate CancelsObservation(m: Message)
  {
    m.code == CodeGet && ObserveValue(m.options) == Some(1)
  }

  /**
   * The copy kept in the pending table: the whole message when it is
   * confirmable, the header alone (up to the options) when it is
   * non-confirmable and a handler waits for the response, none otherwise.
   */
  function StoredCopy(m: Message, handler: HandlerRef): (copy: Option<Message>)
    ensures copy.Some? <==> IsConfirmable(m) || (IsNonConfirmable(m) && HasHandler(handler))
    ensures copy.Some? ==> copy.value.messageId == m.messageId && copy.value.token == m.token
                           && copy.value.msgType == m.msgType && copy.value.code == m.code
  {
    if IsConfirmable(m) then Some(m)
    else if IsNonConfirmable(m) && HasHandler(handler) then Some(m.(options := [], length := 4 + |m.token|))
    else None
  }

  /**
   * The metadata SendMessage stores: the socket and peer addresses, the
   * handler, the full retry budget, a random initial timeout, and the
   * first deadline (the timeout for a confirmable message, MAX_TRANSMIT_WAIT
   * otherwise).
   */
  function NewMetadata(m: Message, info: MessageInfo, p: TxParameters, handler: HandlerRef, now: nat, random: uint32,
                       observe: bool): (md: Metadata)
    requires IsValid(p)
    ensures p.ackTimeout <= md.retransmissionTimeout
            <= Mul(p.ackTimeout, p.ackRandomFactorNumerator) / p.ackRandomFactorDenominator
    ensures md.retransmissionsRemaining == p.maxRetransmit && !md.acknowledged
    ensures md.confirmable <==> IsConfirmable(m)
    ensures md.confirmable ==> md.nextTimerShot == now + md.retransmissionTimeout
  {
    InitialTimeoutRangeOfValid(p);
    var timeout := CalculateInitialRetransmissionTimeout(p, random);
    Metadata(info.sockAddr, info.peerAddr, info.peerPort, handler, p.maxRetransmit, timeout, false,
             IsConfirmable(m), observe,
             now + (if IsConfirmable(m) then timeout else CalculateMaxTransmitWait(p)), false, false)
  }

  /** The table after a GET with Observe = 1 cancels the subscription it matches. */
  function AfterCancel(pending: seq<PendingRequest>, m: Message, info: MessageInfo): seq<PendingRequest>
  {
    var k := FirstRelated(pending, m, info);
    if CancelsObservation(m) && k.Some? then RemoveAt(pending, k.value) else pending
  }

  function CancelEffects(pending: seq<PendingRequest>, m: Message, info: MessageInfo): seq<Effect>
  {
    var k := FirstRelated(pending, m, info);
    if CancelsObservation(m) && k.Some? then FinalizeEffects(pending[k.value].metadata, None, NoError) else []
  }

  /** Whether the responses cache holds an answer to this request. */
  predicate HasCachedResponse(queue: seq<CachedResponse>, request: Message, info: MessageInfo)
  {
    exists j | 0 <= j < |queue| :: Matches(queue[j], request.messageId, info)
  }

  predicate IsAckOrReset(m: Message)
  {
    m.msgType == Acknowledgment || m.msgType == Reset
  }

  class CoapBase {
    var pending: seq<PendingRequest>
    var messageId: uint16
    /** When the retransmission timer fires; None while it is stopped. */
    var retransmissionTimer: Option<nat>
    /** Handler calls and transmissions, in the order they happened. */
    var events: seq<Effect>
    const responses: ResponsesQueue

    ghost predicate Valid()
      reads this, responses
    {
      TimerCovers(retransmissionTimer, pending) && responses.Valid()
    }

    /** The first message ID is a random draw. */
    constructor (firstMessageId: uint16)
      ensures Valid() && pending == [] && retransmissionTimer == None && events == []
      ensures messageId == firstMessageId && fresh(responses) && responses.queue == []
    {
      pending := [];
      messageId := firstMessageId;
      retransmissionTimer := None;
      events := [];
      responses := new ResponsesQueue();
    }

    /** ScheduleRetransmissionTimer: fire at the earliest deadline of a timed entry. */
    method ScheduleRetransmissionTimer()
      modifies this`retransmissionTimer
      ensures retransmissionTimer == NextFireTime(pending)
    {
      var next: Option<nat> := None;
      var i := 0;
      while i < |pending|
        invariant 0 <= i <= |pending|
        invariant next == NextFireTime(pending[..i])
      {
        assert pending[..i + 1][..i] == pending[..i];
        var e := pending[i];
        if !IsSubscription(e) && (next.None? || e.metadata.nextTimerShot < next.value) {
          next := Some(e.metadata.nextTimerShot);
        }
        i := i + 1;
      }
      assert pending[..i] == pending;
      retransmissionTimer := next;
    }

    /** FindRelatedRequest: the first pending request a received message answers. */
    method FindRelatedRequest(message: Message, info: MessageInfo) returns (index: Option<nat>)
      ensures index == FirstRelated(pending, message, info)
    {
      var i := 0;
      while i < |pending|
        invariant 0 <= i <= |pending|
        invariant forall j | 0 <= j < i :: !Related(pending[j], message, info)
      {
        if Related(pending[i], message, info) {
          return Some(i);
        }
        i := i + 1;
      }
      return None;
    }

    /** DequeueMessage: drop one entry and re-arm the timer. */
    method DequeueMessage(index: nat)
      requires Valid() && index < |pending|
      modifies this`pending, this`retransmissionTimer
      ensures Valid() && pending == RemoveAt(old(pending), index)
      ensures retransmissionTimer == NextFireTime(pending)
    {
      pending := RemoveAt(pending, index);
      ScheduleRetransmissionTimer();
    }

    /** FinalizeCoapTransaction: dequeue the request, then call its handler. */
    method FinalizeCoapTransaction(index: nat, response: Option<Message>, result: Error)
      requires Valid() && index < |pending|
      modifies this`pending, this`retransmissionTimer, this`events
      ensures Valid() && pending == RemoveAt(old(pending), index)
      ensures events == old(events) + FinalizeEffects(old(pending)[index].metadata, response, result)
    {
      var md := pending[index].metadata;
      DequeueMessage(index);
      if HasHandler(md.handler) {
        events := events + [ResponseHandled(md.handler, response, result)];
      }
    }

    /** Finalize every selected request with the given result, in table order. */
    method FinalizeSelected(selector: Selector, result: Error)
      requires Valid()
      modifies this`pending, this`retransmissionTimer, this`events
      ensures Valid()
      ensures pending == Unselected(old(pending), selector)
      ensures events == old(events) + SelectedEffects(old(pending), selector, result)
    {
      ghost var events0 := events;
      var snapshot := pending;
      var i, position := 0, 0;
      SelectionStart(snapshot, selector, result, events0);
      while i < |snapshot|
        invariant Valid() && SelectionProgress(snapshot, selector, result, events0, i, position, pending, events)
        decreases |snapshot| - i
      {
        position := FinalizeNext(snapshot, selector, result, events0, i, position);
        i := i + 1;
      }
      SelectionDone(snapshot, selector, result, events0, i, position, pending, events);
    }

    /** One step of FinalizeSelected: finalize the snapshot's i-th entry if it is selected. */
    method FinalizeNext(snapshot: seq<PendingRequest>, selector: Selector, result: Error, ghost events0: seq<Effect>,
                        i: nat, position: nat) returns (next: nat)
      requires Valid() && SelectionProgress(snapshot, selector, result, events0, i, position, pending, events)
      requires i < |snapshot|
      modifies this`pending, this`retransmissionTimer, this`events
      ensures Valid() && SelectionProgress(snapshot, selector, result, events0, i + 1, next, pending, events)
    {
      ghost var table, before := pending, events;
      SelectionAt(snapshot, selector, result, events0, i, position, table, before);
      if Selected(snapshot[i], selector) {
        FinalizeCoapTransaction(position, None, result);
        next := position;
      } else {
        next := position + 1;
      }
      SelectionAdvance(snapshot, selector, result, events0, i, position, table, before, pending, events);
    }

    /**
     * AbortTransaction: finalize with Abort every request registered with
     * this handler and context; NotFound when there is none.
     */
    method AbortTransaction(handler: HandlerRef) returns (error: Error)
      requires Valid()
      modifies this`pending, this`retransmissionTimer, this`events
      ensures Valid()
      ensures pending == Unselected(old(pending), WithHandler(handler))
      ensures events == old(events) + SelectedEffects(old(pending), WithHandler(handler), Abort)
      ensures error == NotFound <==> |pending| == |old(pending)|
      ensures error == NoError || error == NotFound
    {
      UnselectedShrinksIffSelected(pending, WithHandler(handler));
      error := NotFound;
      if exists i | 0 <= i < |pending| :: Selected(pending[i], WithHandler(handler)) {
        error := NoError;
      }
      FinalizeSelected(WithHandler(handler), Abort);
    }

    /** ClearRequests: abort the requests sent from an address, or all of them. */
    method ClearRequests(address: Option<Address>)
      requires Valid()
      modifies this`pending, this`retransmissionTimer, this`events
      ensures Valid()
      ensures address.None? ==> pending == []
      ensures address.Some? ==> pending == Unselected(old(pending), FromSource(address.value))
      ensures events == old(events)
                        + SelectedEffects(old(pending), if address.None? then AnyRequest else FromSource(address.value), Abort)
    {
      var selector := if address.None? then AnyRequest else FromSource(address.value);
      FinalizeSelected(selector, Abort);
      if address.None? {
        NothingLeftUnselected(old(pending));
      }
    }

    /** ClearAllRequestsAndResponses: empty both tables and stop the timer. */
    method ClearAllRequestsAndResponses()
      requires Valid()
      modifies this`pending, this`retransmissionTimer, this`events, responses
      ensures Valid() && pending == [] && retransmissionTimer == None
      ensures responses.queue == [] && responses.timer == None
    {
      ClearRequests(None);
      responses.DequeueAllResponses();
      retransmissionTimer := None;
    }

    /**
     * HandleRetransmissionTimer: sweep the table (finalize, retry or keep
     * every entry), then re-arm the timer at the earliest deadline.
     */
    method HandleRetransmissionTimer(now: nat)
      requires Valid()
      modifies this`pending, this`retransmissionTimer, this`events
      ensures Valid()
      ensures pending == Sweep(old(pending), now).kept
      ensures events == old(events) + Sweep(old(pending), now).effects
      ensures retransmissionTimer == NextFireTime(pending)
    {
      var kept, effects := SweepTable(pending, now);
      pending := kept;
      events := events + effects;
      ScheduleRetransmissionTimer();
    }

    /**
     * SendMessage. Acknowledgments go to the responses cache; every other
     * message except a reset takes the next message ID. A stored copy is
     * kept (see StoredCopy); a GET with Observe = 1 first cancels the
     * subscription it matches. If the copy cannot be stored, NoBufs and
     * nothing is sent; if the transport refuses the message, the copy is
     * removed again, so no entry outlives a failed send.
     */
    method SendMessage(message: Message, info: MessageInfo, p: TxParameters, handler: HandlerRef,
                       now: nat, random: uint32, copySucceeds: bool, cacheSucceeds: bool, sendResult: Error)
      returns (error: Error, sent: Message)
      requires Valid() && IsValid(p)
      requires message.msgType == Reset ==> IsEmpty(message)
      modifies this, responses
      ensures Valid()
      ensures IsAckOrReset(message) ==> sent == message && messageId == old(messageId)
      ensures !IsAckOrReset(message) ==> sent == message.(messageId := old(messageId))
                                          && messageId == Wrap16(old(messageId) + 1)
      ensures message.msgType != Acknowledgment ==>
                responses.queue == old(responses.queue) && responses.timer == old(responses.timer)
      ensures message.msgType == Acknowledgment
              && (exists j | 0 <= j < |old(responses.queue)| :: Matches(old(responses.queue)[j], message.messageId, info)) ==>
                responses.queue == old(responses.queue) && responses.timer == old(responses.timer)
      ensures message.msgType == Acknowledgment
              && (forall j | 0 <= j < |old(responses.queue)| :: !Matches(old(responses.queue)[j], message.messageId, info)) ==>
                var dequeueTime := now + CalculateExchangeLifetime(p);
                responses.queue == Evicted(old(responses.queue))
                                   + (if cacheSucceeds
                                      then [CachedResponse(message, info.peerAddr, info.peerPort, dequeueTime)]
                                      else [])
                && responses.timer == if cacheSucceeds
                                      then FireNoLaterThan(old(responses.timer), dequeueTime)
                                      else old(responses.timer)
      ensures StoredCopy(sent, handler).None? ==> error == sendResult && pending == old(pending) && events == old(events)
      ensures StoredCopy(sent, handler).Some? && !sent.optionsWellFormed ==>
                error == Parse && pending == old(pending) && events == old(events)
      ensures StoredCopy(sent, handler).Some? && sent.optionsWellFormed ==>
                var base := AfterCancel(old(pending), sent, info);
                events == old(events) + CancelEffects(old(pending), sent, info)
                && (error == NoError <==> copySucceeds && sendResult == NoError)
                && (!copySucceeds ==> error == NoBufs)
                && (error != NoError ==> pending == base)
                && (error == NoError ==>
                      pending == base + [PendingRequest(StoredCopy(sent, handler).value,
                                          NewMetadata(sent, info, p, handler, now, random,
                                                      HasOption(sent, OptionObserve) && !CancelsObservation(sent)))])
    {
      sent := message;
      if message.msgType == Acknowledgment {
        responses.EnqueueResponse(message, info, now, CalculateExchangeLifetime(p), cacheSucceeds, cacheSucceeds);
      } else if message.msgType != Reset {
        sent := message.(messageId := messageId);
        messageId := Wrap16(messageId + 1);
      }
      error := StoreAndSend(sent, info, p, handler, now, random, copySucceeds, sendResult);
    }

    /** A GET with Observe = 1 finalizes the subscription it matches (RFC 7641 deregistration). */
    method CancelObservation(sent: Message, info: MessageInfo)
      requires Valid()
      modifies this`pending, this`retransmissionTimer, this`events
      ensures Valid()
      ensures pending == AfterCancel(old(pending), sent, info)
      ensures events == old(events) + CancelEffects(old(pending), sent, info)
    {
      if CancelsObservation(sent) {
        var k := FindRelatedRequest(sent, info);
        if k.Some? {
          FinalizeCoapTransaction(k.value, None, NoError);
        }
      }
    }

    /** The part of SendMessage after numbering: store the copy, then send. */
    method StoreAndSend(sent: Message, info: MessageInfo, p: TxParameters, handler: HandlerRef,
                        now: nat, random: uint32, copySucceeds: bool, sendResult: Error)
      returns (error: Error)
      requires Valid() && IsValid(p)
      modifies this`pending, this`retransmissionTimer, this`events
      ensures Valid()
      ensures StoredCopy(sent, handler).None? ==> error == sendResult && pending == old(pending) && events == old(events)
      ensures StoredCopy(sent, handler).Some? && !sent.optionsWellFormed ==>
                error == Parse && pending == old(pending) && events == old(events)
      ensures StoredCopy(sent, handler).Some? && sent.optionsWellFormed ==>
                var base := AfterCancel(old(pending), sent, info);
                events == old(events) + CancelEffects(old(pending), sent, info)
                && (error == NoError <==> copySucceeds && sendResult == NoError)
                && (!copySucceeds ==> error == NoBufs)
                && (error != NoError ==> pending == base)
                && (error == NoError ==>
                      pending == base + [PendingRequest(StoredCopy(sent, handler).value,
                                          NewMetadata(sent, info, p, handler, now, random,
                                                      HasOption(sent, OptionObserve) && !CancelsObservation(sent)))])
    {
      var copy := StoredCopy(sent, handler);
      if copy.None? {
        return sendResult;
      }
      if !sent.optionsWellFormed {
        return Parse;
      }
      var observe := HasOption(sent, OptionObserve) && !CancelsObservation(sent);
      CancelObservation(sent, info);
      if !copySucceeds {
        return NoBufs;
      }
      var md := NewMetadata(sent, info, p, handler, now, random, observe);
      EnqueueAndSend(PendingRequest(copy.value, md), sendResult);
      return sendResult;
    }

    /** Store the copy and arm the timer; a failed send takes the copy out again. */
    method EnqueueAndSend(request: PendingRequest, sendResult: Error)
      requires Valid()
      modifies this`pending, this`retransmissionTimer
      ensures Valid()
      ensures pending == old(pending) + (if sendResult == NoError then [request] else [])
    {
      var base := pending;
      pending := base + [request];
      ScheduleRetransmissionTimer();
      if sendResult != NoError {
        DequeueMessage(|pending| - 1);
        assert pending == base;
      }
    }

    /**
     * SendHeaderResponse: answer a request with a header-only response
     * (see HeaderOnlyResponse), sent like any other message with the default
     * transmission parameters and no handler. InvalidArgs for a message that
     * is not a request or is itself an acknowledgment or reset, NoBufs when
     * no message can be allocated.
     */
    method SendHeaderResponse(code: uint8, request: Message, info: MessageInfo, reply: ReplyEnvironment)
      returns (error: Error, sent: Option<Message>)
      requires Valid()
      modifies this, responses
      ensures Valid() && pending == old(pending) && events == old(events)
      ensures sent.Some? <==> IsRequest(request) && reply.allocates && (IsConfirmable(request) || IsNonConfirmable(request))
      ensures !IsRequest(request) ==> error == InvalidArgs
      ensures IsRequest(request) && !reply.allocates ==> error == NoBufs
      ensures IsRequest(request) && reply.allocates && sent.None? ==> error == InvalidArgs
      ensures sent.None? ==> messageId == old(messageId)
                             && responses.queue == old(responses.queue) && responses.timer == old(responses.timer)
      ensures sent.Some? ==> error == reply.sendResult
      ensures IsConfirmable(request) && sent.Some? ==>
                sent.value == HeaderOnlyResponse(code, request) && messageId == old(messageId)
      ensures IsConfirmable(request) && sent.Some?
              && (exists j | 0 <= j < |old(responses.queue)| :: Matches(old(responses.queue)[j], request.messageId, info)) ==>
                responses.queue == old(responses.queue) && responses.timer == old(responses.timer)
      ensures IsConfirmable(request) && sent.Some?
              && (forall j | 0 <= j < |old(responses.queue)| :: !Matches(old(responses.queue)[j], request.messageId, info)) ==>
                var dequeueTime := reply.now + CalculateExchangeLifetime(DefaultTxParameters);
                responses.queue == Evicted(old(responses.queue))
                                   + (if reply.cacheSucceeds
                                      then [CachedResponse(HeaderOnlyResponse(code, request), info.peerAddr, info.peerPort, dequeueTime)]
                                      else [])
                && responses.timer == if reply.cacheSucceeds
                                      then FireNoLaterThan(old(responses.timer), dequeueTime)
                                      else old(responses.timer)
      ensures IsNonConfirmable(request) && sent.Some? ==>
                sent.value == HeaderOnlyResponse(code, request).(messageId := old(messageId))
                && messageId == Wrap16(old(messageId) + 1)
                && responses.queue == old(responses.queue) && responses.timer == old(responses.timer)
    {
      if !IsRequest(request) {
        return InvalidArgs, None;
      }
      if !reply.allocates {
        return NoBufs, None;
      }
      if !IsConfirmable(request) && !IsNonConfirmable(request) {
        return InvalidArgs, None;
      }
      var response := HeaderOnlyResponse(code, request);
      DefaultTxParametersValid();
      var message;
      error, message := SendMessage(response, info, DefaultTxParameters, HandlerRef(NullHandler, 0), reply.now,
                                    reply.random, true, reply.cacheSucceeds, reply.sendResult);
      sent := Some(message);
    }

    /**
     * ProcessReceivedRequest. The interceptor may refuse the request; a
     * request answered before is answered again from the responses cache;
     * otherwise the request goes to the first handler that takes its path
     * (see RequestDispatch), and a header-only response reports a block-wise
     * failure or, unless the request was multicast, that nothing took it.
     */
    method ProcessReceivedRequest(request: Message, info: MessageInfo, env: RequestEnvironment, reply: ReplyEnvironment)
      returns (error: Error, replied: Option<Message>)
      requires Valid()
      modifies this, responses
      ensures Valid() && pending == old(pending)
      ensures env.interceptor.Some? && env.interceptor.value != NoError ==>
                error == env.interceptor.value && events == old(events) && replied.None?
                && messageId == old(messageId)
                && responses.queue == old(responses.queue) && responses.timer == old(responses.timer)
      ensures (env.interceptor.None? || env.interceptor.value == NoError)
              && HasCachedResponse(old(responses.queue), request, info) ==>
                messageId == old(messageId) && replied.None?
                && responses.queue == old(responses.queue) && responses.timer == old(responses.timer)
                && (!env.cloneSucceeds ==> error == NoBufs && events == old(events))
                && (env.cloneSucceeds ==>
                      error == env.transportResult
                      && exists j | 0 <= j < |old(responses.queue)| ::
                           Matches(old(responses.queue)[j], request.messageId, info)
                           && events == old(events) + [Transmitted(old(responses.queue)[j].response, info.peerAddr, info.peerPort)])
      ensures (env.interceptor.None? || env.interceptor.value == NoError)
              && !HasCachedResponse(old(responses.queue), request, info) ==>
                var d := RequestDispatch(request, info, env.handlers, env.block1Result, env.block2, env.block2SendResult);
                error == d.error && events == old(events) + DispatchEffects(d)
                && (d.reply.None? ==>
                      replied.None? && messageId == old(messageId)
                      && responses.queue == old(responses.queue) && responses.timer == old(responses.timer))
      ensures (env.interceptor.None? || env.interceptor.value == NoError)
              && !HasCachedResponse(old(responses.queue), request, info) ==>
                var d := RequestDispatch(request, info, env.handlers, env.block1Result, env.block2, env.block2SendResult);
                d.reply.Some? ==>
                  (replied.Some? <==> IsRequest(request) && reply.allocates
                                      && (IsConfirmable(request) || IsNonConfirmable(request)))
                  && (replied.None? ==>
                        messageId == old(messageId)
                        && responses.queue == old(responses.queue) && responses.timer == old(responses.timer))
                  && (IsNonConfirmable(request) && replied.Some? ==>
                        replied.value == HeaderOnlyResponse(d.reply.value, request).(messageId := old(messageId))
                        && messageId == Wrap16(old(messageId) + 1)
                        && responses.queue == old(responses.queue) && responses.timer == old(responses.timer))
                  && (IsConfirmable(request) && replied.Some? ==>
                        var dequeueTime := reply.now + CalculateExchangeLifetime(DefaultTxParameters);
                        replied.value == HeaderOnlyResponse(d.reply.value, request)
                        && messageId == old(messageId)
                        && responses.queue == Evicted(old(responses.queue))
                                              + (if reply.cacheSucceeds
                                                 then [CachedResponse(HeaderOnlyResponse(d.reply.value, request),
                                                                      info.peerAddr, info.peerPort, dequeueTime)]
                                                 else [])
                        && responses.timer == if reply.cacheSucceeds
                                              then FireNoLaterThan(old(responses.timer), dequeueTime)
                                              else old(responses.timer))
    {
      replied := None;
      if env.interceptor.Some? && env.interceptor.value != NoError {
        return env.interceptor.value, None;
      }
      var cacheError, cached := responses.GetMatchedResponseCopy(request.messageId, info, env.cloneSucceeds);
      if cacheError == NoError {
        events := events + [Transmitted(cached.value, info.peerAddr, info.peerPort)];
        return env.transportResult, None;
      }
      if cacheError == NoBufs {
        return NoBufs, None;
      }
      var scanError, path, blockType := ScanRequestOptions(request);
      if scanError != NoError {
        return scanError, None;
      }
      var d := DispatchFor(path, blockType, info.sockAddr, env.handlers, env.block1Result, env.block2, env.block2SendResult);
      events := events + DispatchEffects(d);
      if d.reply.Some? {
        var replyError;
        replyError, replied := SendHeaderResponse(d.reply.value, request, info, reply);
      }
      error := d.error;
    }

    /**
     * ProcessReceivedResponse: find the related request and apply the
     * reaction to it; a CON message that answers nothing is reset.
     */
    method ProcessReceivedResponse(message: Message, info: MessageInfo, continuation: Continuation)
      requires Valid()
      modifies this`pending, this`retransmissionTimer, this`events
      ensures Valid()
      ensures var k := FirstRelated(old(pending), message, info);
              (k.None? ==> pending == old(pending) && events == old(events) + UnmatchedEffects(message, info))
              && (k.Some? ==>
                    var r := ReactionTo(old(pending)[k.value], message, info, continuation);
                    pending == Applied(old(pending), k.value, r.update) && events == old(events) + r.effects)
    {
      var k := FindRelatedRequest(message, info);
      if k.None? {
        events := events + UnmatchedEffects(message, info);
        return;
      }
      var r := ReactionTo(pending[k.value], message, info, continuation);
      events := events + r.effects;
      match r.update
      case Keep =>
      case Replace(entry) =>
        // The metadata is rewritten in place; the timer is left as it is.
        var before := pending;
        pending := pending[k.value := entry];
        ReplaceKeepsTimerCovering(retransmissionTimer, before, k.value, entry);
      case Remove =>
        DequeueMessage(k.value);
    }
  }

  /**
   * One step of FinalizeSelected: with the table holding the kept prefix
   * followed by the unvisited suffix, entry i sits at the kept prefix's
   * length, and removing it (when selected) or stepping over it (when not)
   * restores the same shape one entry further on.
   */
  /**
   * FinalizeSelected after i entries of the snapshot: position counts the
   * unselected ones so far, the table holds them followed by the rest of the
   * snapshot, and the events hold the finalizations so far.
   */
  ghost predicate SelectionProgress(snapshot: seq<PendingRequest>, selector: Selector, result: Error, events0: seq<Effect>,
                                    i: nat, position: nat, table: seq<PendingRequest>, events: seq<Effect>)
  {
    i <= |snapshot|
    && position == |Unselected(snapshot[..i], selector)|
    && table == Unselected(snapshot[..i], selector) + snapshot[i..]
    && events == events0 + SelectedEffects(snapshot[..i], selector, result)
  }

  lemma SelectionAt(snapshot: seq<PendingRequest>, selector: Selector, result: Error, events0: seq<Effect>,
                    i: nat, position: nat, table: seq<PendingRequest>, events: seq<Effect>)
    requires SelectionProgress(snapshot, selector, result, events0, i, position, table, events) && i < |snapshot|
    ensures position < |table| && table[position] == snapshot[i]
  {
    assert table[position] == snapshot[i..][0];
  }

  lemma SelectionAdvance(snapshot: seq<PendingRequest>, selector: Selector, result: Error, events0: seq<Effect>,
                         i: nat, position: nat, table: seq<PendingRequest>, events: seq<Effect>,
                         table': seq<PendingRequest>, events': seq<Effect>)
    requires SelectionProgress(snapshot, selector, result, events0, i, position, table, events) && i < |snapshot|
    requires position < |table|
    requires table' == if Selected(snapshot[i], selector) then RemoveAt(table, position) else table
    requires events' == if Selected(snapshot[i], selector) then events + FinalizeEffects(table[position].metadata, None, result)
                        else events
    ensures SelectionProgress(snapshot, selector, result, events0, i + 1,
                              if Selected(snapshot[i], selector) then position else position + 1, table', events')
  {
    SelectionTableStep(snapshot, i, selector, table);
    SelectionEffectsStep(snapshot, i, selector, result, events0);
  }

  lemma SelectionStart(snapshot: seq<PendingRequest>, selector: Selector, result: Error, events0: seq<Effect>)
    ensures SelectionProgress(snapshot, selector, result, events0, 0, 0, snapshot, events0)
  {
    assert snapshot[..0] == [] && snapshot[0..] == snapshot;
  }

  lemma SelectionDone(snapshot: seq<PendingRequest>, selector: Selector, result: Error, events0: seq<Effect>,
                      i: nat, position: nat, table: seq<PendingRequest>, events: seq<Effect>)
    requires SelectionProgress(snapshot, selector, result, events0, i, position, table, events) && i >= |snapshot|
    ensures table == Unselected(snapshot, selector) && events == events0 + SelectedEffects(snapshot, selector, result)
  {
    assert snapshot[..i] == snapshot;
  }

  lemma SelectionTableStep(snapshot: seq<PendingRequest>, i: nat, selector: Selector, table: seq<PendingRequest>)
    requires i < |snapshot|
    requires table == Unselected(snapshot[..i], selector) + snapshot[i..]
    ensures var position := |Unselected(snapshot[..i], selector)|;
            position < |table| && table[position] == snapshot[i]
            && (Selected(snapshot[i], selector) ==>
                  RemoveAt(table, position) == Unselected(snapshot[..i + 1], selector) + snapshot[i + 1..]
                  && |Unselected(snapshot[..i + 1], selector)| == position)
            && (!Selected(snapshot[i], selector) ==>
                  table == Unselected(snapshot[..i + 1], selector) + snapshot[i + 1..]
                  && |Unselected(snapshot[..i + 1], selector)| == position + 1)
  {
    assert snapshot[..i + 1][..i] == snapshot[..i];
    var kept := Unselected(snapshot[..i], selector);
    assert snapshot[i..] == [snapshot[i]] + snapshot[i + 1..];
    RemoveAtJoin(kept, snapshot[i..]);
    assert snapshot[i..][1..] == snapshot[i + 1..];
    if !Selected(snapshot[i], selector) {
      assert table == (kept + [snapshot[i]]) + snapshot[i + 1..];
    }
  }

  lemma SelectionEffectsStep(snapshot: seq<PendingRequest>, i: nat, selector: Selector, result: Error, before: seq<Effect>)
    requires i < |snapshot|
    ensures before + SelectedEffects(snapshot[..i + 1], selector, result)
            == (before + SelectedEffects(snapshot[..i], selector, result))
               + (if Selected(snapshot[i], selector) then FinalizeEffects(snapshot[i].metadata, None, result) else [])
  {
    assert snapshot[..i + 1][..i] == snapshot[..i];
    ConcatAssociates(before, SelectedEffects(snapshot[..i], selector, result),
                     if Selected(snapshot[i], selector) then FinalizeEffects(snapshot[i].metadata, None, result) else []);
  }

  /**
   * The loop of HandleRetransmissionTimer over the table: finalize, retry or
   * keep every entry in order (see SweepEntry).
   */
  method SweepTable(snapshot: seq<PendingRequest>, now: nat) returns (kept: seq<PendingRequest>, effects: seq<Effect>)
    ensures kept == Sweep(snapshot, now).kept && effects == Sweep(snapshot, now).effects
  {
    kept, effects := [], [];
    var i := 0;
    while i < |snapshot|
      invariant 0 <= i <= |snapshot|
      invariant kept == Sweep(snapshot[..i], now).kept
      invariant effects == Sweep(snapshot[..i], now).effects
    {
      SweepStep(snapshot, i, now);
      var e := snapshot[i];
      var md := e.metadata;
      if now < md.nextTimerShot || IsSubscription(e) {
        kept := kept + [e];
      } else if !md.confirmable || md.retransmissionsRemaining == 0 {
        if HasHandler(md.handler) {
          effects := effects + [ResponseHandled(md.handler, None, ResponseTimeout)];
        }
      } else {
        var timeout := Wrap32(md.retransmissionTimeout * 2);
        var retried := md.(retransmissionsRemaining := md.retransmissionsRemaining - 1,
                           retransmissionTimeout := timeout,
                           nextTimerShot := now + timeout);
        kept := kept + [PendingRequest(e.request, retried)];
        if !md.acknowledged {
          effects := effects + [Transmitted(e.request, md.destinationAddress, md.destinationPort)];
        }
      }
      i := i + 1;
    }
    assert snapshot[..i] == snapshot;
  }

  lemma {:induction false} NothingLeftUnselected(pending: seq<PendingRequest>)
    ensures Unselected(pending, AnyRequest) == []
  {
    if pending != [] {
      NothingLeftUnselected(pending[..|pending| - 1]);
    }
  }

  lemma SweepStep(snapshot: seq<PendingRequest>, i: nat, now: nat)
    requires i < |snapshot|
    ensures Sweep(snapshot[..i + 1], now).kept == Sweep(snapshot[..i], now).kept + SweepEntry(snapshot[i], now).kept
    ensures Sweep(snapshot[..i + 1], now).effects == Sweep(snapshot[..i], now).effects + SweepEntry(snapshot[i], now).effects
  {
    assert snapshot[..i + 1][..i] == snapshot[..i];
  }

  lemma RemoveAtJoin(a: seq<PendingRequest>, b: seq<PendingRequest>)
    requires b != []
    ensures RemoveAt(a + b, |a|) == a + b[1..] && (a + b)[|a|] == b[0]
  {
    assert (a + b)[..|a|] == a;
    assert (a + b)[|a| + 1..] == b[1..];
  }

  /**
   * Rewriting an entry as acknowledged (the only rewrite a reaction makes)
   * keeps its deadline and can only exempt it from timing, so the timer
   * still fires no later than the earliest deadline.
   */
  lemma ReplaceKeepsTimerCovering(timer: Option<nat>, pending: seq<PendingRequest>, k: nat, entry: PendingRequest)
    requires k < |pending| && TimerCovers(timer, pending)
    requires entry.request == pending[k].request
    requires entry.metadata == pending[k].metadata.(acknowledged := entry.metadata.acknowledged)
    requires pending[k].metadata.acknowledged ==> entry.metadata.acknowledged
    ensures TimerCovers(timer, pending[k := entry])
  {
    var updated := pending[k := entry];
    if NextFireTime(updated).Some? {
      var i :| 0 <= i < |updated| && !IsSubscription(updated[i])
               && updated[i].metadata.nextTimerShot == NextFireTime(updated).value;
      assert !IsSubscription(pending[i]);
    }
  }
}
