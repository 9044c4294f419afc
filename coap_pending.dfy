/**
 * The pending-request table of the CoAP engine: each request sent with a
 * stored copy carries a metadata trailer (peer, response handler, retry
 * state, deadline). This module holds the table's entries and the
 * functions that specify the table operations.
 */
module CoapPending {
  import opened Common
  import opened Ip6Address
  import opened CoapTypes

  /** A null ResponseHandler. */
  const NullHandler: nat := 0

  predicate HasHandler(h: HandlerRef) { h.handler != NullHandler }

  /** The metadata trailer of a stored request. */
  datatype Metadata = Metadata(
    sourceAddress: Address,
    destinationAddress: Address,
    destinationPort: uint16,
    handler: HandlerRef,
    retransmissionsRemaining: uint8,
    retransmissionTimeout: uint32,
    acknowledged: bool,
    confirmable: bool,
    observe: bool,
    nextTimerShot: nat,
    transmitHook: bool,
    receiveHook: bool)

  datatype PendingRequest = PendingRequest(request: Message, metadata: Metadata)

  /** What the engine does outside its own tables: handler calls and transmissions. */
  datatype Effect =
    | ResponseHandled(handler: HandlerRef, response: Option<Message>, result: Error)
    | Transmitted(message: Message, peerAddr: Address, peerPort: uint16)
    | RequestDispatched(target: DispatchTarget)

  /** Who a received request was handed to. */
  datatype DispatchTarget = BlockWiseResource(index: nat) | Resource(index: nat) | ResourceHandler | DefaultHandler

  /** FinalizeCoapTransaction's call of the response handler, when there is one. */
  function FinalizeEffects(md: Metadata, response: Option<Message>, result: Error): (effects: seq<Effect>)
    ensures |effects| <= 1
    ensures effects != [] <==> HasHandler(md.handler)
    ensures effects != [] ==> effects[0] == ResponseHandled(md.handler, response, result)
  {
    if HasHandler(md.handler) then [ResponseHandled(md.handler, response, result)] else []
  }

  /** An acknowledged RFC 7641 subscription: it is never timed out. */
  predicate IsSubscription(e: PendingRequest)
  {
    IsRequest(e.request) && e.metadata.observe && e.metadata.acknowledged
  }

  /**
   * ScheduleRetransmissionTimer's fire time: the earliest deadline over the
   * entries that are not subscriptions, or None (timer stopped).
   */
  function NextFireTime(pending: seq<PendingRequest>): (t: Option<nat>)
    ensures t.None? <==> forall i | 0 <= i < |pending| :: IsSubscription(pending[i])
    ensures t.Some? ==> exists i | 0 <= i < |pending| :: !IsSubscription(pending[i])
                                                        && pending[i].metadata.nextTimerShot == t.value
    ensures t.Some? ==> forall i | 0 <= i < |pending| && !IsSubscription(pending[i]) ::
                          t.value <= pending[i].metadata.nextTimerShot
  {
    if pending == [] then None
    else
      var n := |pending| - 1;
      var t := NextFireTime(pending[..n]);
      assert forall i | 0 <= i < n :: pending[..n][i] == pending[i];
      if IsSubscription(pending[n]) then t
      else if t.Some? && t.value <= pending[n].metadata.nextTimerShot then t
      else Some(pending[n].metadata.nextTimerShot)
  }

  /** No deadline of a timed entry passes before the retransmission timer fires. */
  predicate TimerCovers(timer: Option<nat>, pending: seq<PendingRequest>)
  {
    NextFireTime(pending).Some? ==> timer.Some? && timer.value <= NextFireTime(pending).value
  }

  // ---------------------------------------------------------------------
  // Retransmission sweep
  // ---------------------------------------------------------------------

  datatype Swept = Swept(kept: seq<PendingRequest>, effects: seq<Effect>)

  /**
   * One entry at a retransmission timer event: not yet due, or a
   * subscription, stays; a due non-confirmable entry or one out of retries
   * is finalized with ResponseTimeout; otherwise one retry is used, the
   * timeout doubles (as a uint32), the deadline moves to now + timeout, and
   * the stored copy is resent unless already acknowledged.
   */
  function SweepEntry(e: PendingRequest, now: nat): Swept
  {
    var md := e.metadata;
    if now < md.nextTimerShot || IsSubscription(e) then Swept([e], [])
    else if !md.confirmable || md.retransmissionsRemaining == 0 then
      Swept([], FinalizeEffects(md, None, ResponseTimeout))
    else
      var timeout := Wrap32(md.retransmissionTimeout * 2);
      var retried := md.(retransmissionsRemaining := md.retransmissionsRemaining - 1,
                         retransmissionTimeout := timeout,
                         nextTimerShot := now + timeout);
      Swept([PendingRequest(e.request, retried)],
            if md.acknowledged then [] else [Transmitted(e.request, md.destinationAddress, md.destinationPort)])
  }

  /** HandleRetransmissionTimer's sweep over the table, in table order. */
  function Sweep(pending: seq<PendingRequest>, now: nat): Swept
  {
    if pending == [] then Swept([], [])
    else
      var n := |pending| - 1;
      var s, t := Sweep(pending[..n], now), SweepEntry(pending[n], now);
      Swept(s.kept + t.kept, s.effects + t.effects)
  }

  /** A due entry whose timeout is about to double without wrapping to zero. */
  predicate RetryFits(e: PendingRequest)
  {
    0 < e.metadata.retransmissionTimeout < 0x8000_0000
  }

  /**
   * After the sweep no timed entry is due any more, provided no doubled
   * timeout wraps: the timer is re-armed strictly in the future.
   */
  lemma SweepLeavesNothingDue(pending: seq<PendingRequest>, now: nat)
    requires forall i | 0 <= i < |pending| :: RetryFits(pending[i])
    ensures forall i | 0 <= i < |Sweep(pending, now).kept| ::
              IsSubscription(Sweep(pending, now).kept[i]) || now < Sweep(pending, now).kept[i].metadata.nextTimerShot
    ensures NextFireTime(Sweep(pending, now).kept).Some? ==> now < NextFireTime(Sweep(pending, now).kept).value
  {
    SweepKeepsNothingDue(pending, now);
    var kept := Sweep(pending, now).kept;
    if NextFireTime(kept).Some? {
      var i :| 0 <= i < |kept| && !IsSubscription(kept[i]) && kept[i].metadata.nextTimerShot == NextFireTime(kept).value;
    }
  }

  lemma {:induction false} SweepKeepsNothingDue(pending: seq<PendingRequest>, now: nat)
    requires forall i | 0 <= i < |pending| :: RetryFits(pending[i])
    ensures forall i | 0 <= i < |Sweep(pending, now).kept| ::
              IsSubscription(Sweep(pending, now).kept[i]) || now < Sweep(pending, now).kept[i].metadata.nextTimerShot
  {
    if pending != [] {
      var n := |pending| - 1;
      assert forall i | 0 <= i < n :: pending[..n][i] == pending[i];
      SweepKeepsNothingDue(pending[..n], now);
      var s, t := Sweep(pending[..n], now), SweepEntry(pending[n], now);
      assert Sweep(pending, now).kept == s.kept + t.kept;
      SweepEntryNotDue(pending[n], now);
    }
  }

  /** What a sweep keeps of a single entry whose retry fits is not due. */
  lemma SweepEntryNotDue(e: PendingRequest, now: nat)
    requires RetryFits(e)
    ensures forall i | 0 <= i < |SweepEntry(e, now).kept| ::
              IsSubscription(SweepEntry(e, now).kept[i]) || now < SweepEntry(e, now).kept[i].metadata.nextTimerShot
  {
    Wrap32Near(e.metadata.retransmissionTimeout * 2);
  }

  /** The retry budget of the table: every entry counts its remaining retries plus one. */
  function Budget(pending: seq<PendingRequest>): nat
  {
    if pending == [] then 0
    else Budget(pending[..|pending| - 1]) + pending[|pending| - 1].metadata.retransmissionsRemaining + 1
  }

  predicate Due(e: PendingRequest, now: nat)
  {
    e.metadata.nextTimerShot <= now && !IsSubscription(e)
  }

  /**
   * A sweep never raises the retry budget, and lowers it whenever some
   * timed entry is due: each request is retried a bounded number of times.
   */
  lemma {:induction false} SweepConsumesBudget(pending: seq<PendingRequest>, now: nat)
    ensures Budget(Sweep(pending, now).kept) <= Budget(pending)
    ensures (exists i | 0 <= i < |pending| :: Due(pending[i], now)) ==>
              Budget(Sweep(pending, now).kept) < Budget(pending)
  {
    if pending != [] {
      var n := |pending| - 1;
      var prefix := pending[..n];
      SweepConsumesBudget(prefix, now);
      var s, t := Sweep(prefix, now), SweepEntry(pending[n], now);
      assert Sweep(pending, now).kept == s.kept + t.kept;
      BudgetConcat(s.kept, t.kept);
      SweepEntryBudget(pending[n], now);
      assert Budget(pending) == Budget(prefix) + pending[n].metadata.retransmissionsRemaining + 1;
      if exists i | 0 <= i < |pending| :: Due(pending[i], now) {
        var i :| 0 <= i < |pending| && Due(pending[i], now);
        if i < n {
          assert prefix[i] == pending[i];
        }
      }
    }
  }

  /** One entry's share of the budget never grows at a sweep, and shrinks when the entry is due. */
  lemma SweepEntryBudget(e: PendingRequest, now: nat)
    ensures Budget(SweepEntry(e, now).kept) <= e.metadata.retransmissionsRemaining + 1
    ensures Due(e, now) ==> Budget(SweepEntry(e, now).kept) < e.metadata.retransmissionsRemaining + 1
  {
    var kept := SweepEntry(e, now).kept;
    if kept != [] {
      assert |kept| == 1 && kept[..0] == [];
    }
  }

  lemma {:induction false} BudgetConcat(a: seq<PendingRequest>, b: seq<PendingRequest>)
    ensures Budget(a + b) == Budget(a) + Budget(b)
    decreases |b|
  {
    if b == [] {
      assert a + b == a;
    } else {
      var n := |b| - 1;
      assert (a + b)[..|a + b| - 1] == a + b[..n];
      assert (a + b)[|a + b| - 1] == b[n];
      BudgetConcat(a, b[..n]);
    }
  }

  /** The sweep never adds entries, and every kept entry is a stored request of the table. */
  lemma {:induction false} SweepKeepsOnlyStoredRequests(pending: seq<PendingRequest>, now: nat)
    ensures |Sweep(pending, now).kept| <= |pending|
    ensures forall e | e in Sweep(pending, now).kept :: exists i | 0 <= i < |pending| :: pending[i].request == e.request
  {
    if pending != [] {
      var n := |pending| - 1;
      SweepKeepsOnlyStoredRequests(pending[..n], now);
      assert forall i | 0 <= i < n :: pending[..n][i] == pending[i];
    }
  }

  // ---------------------------------------------------------------------
  // Matching a received message to a pending request
  // ---------------------------------------------------------------------

  /**
   * The peer check of FindRelatedRequest: the exact address and port the
   * request went to, or any peer when it went to a multicast address or an
   * anycast locator.
   */
  predicate PeerMatches(md: Metadata, info: MessageInfo)
  {
    (md.destinationAddress == info.peerAddr && md.destinationPort == info.peerPort)
    || IsMulticast(md.destinationAddress)
    || IsAnycastLocator(md.destinationAddress)
  }

  /** Acknowledgments and resets match by message ID; CON and NON messages by token. */
  predicate Related(e: PendingRequest, message: Message, info: MessageInfo)
  {
    PeerMatches(e.metadata, info)
    && match message.msgType
       case Reset => message.messageId == e.request.messageId
       case Acknowledgment => message.messageId == e.request.messageId
       case _ => message.token == e.request.token
  }

  /** The first pending request related to a received message. */
  function FirstRelated(pending: seq<PendingRequest>, message: Message, info: MessageInfo): (k: Option<nat>)
    ensures k.Some? ==> k.value < |pending| && Related(pending[k.value], message, info)
                        && forall j | 0 <= j < k.value :: !Related(pending[j], message, info)
    ensures k.None? ==> forall j | 0 <= j < |pending| :: !Related(pending[j], message, info)
  {
    if pending == [] then None
    else if Related(pending[0], message, info) then Some(0)
    else
      var k := FirstRelated(pending[1..], message, info);
      assert forall j | 1 <= j < |pending| :: pending[1..][j - 1] == pending[j];
      if k.None? then None else Some(k.value + 1)
  }

  // ---------------------------------------------------------------------
  // Finalizing a selection of requests (AbortTransaction, ClearRequests)
  // ---------------------------------------------------------------------

  datatype Selector = AnyRequest | FromSource(address: Address) | WithHandler(handler: HandlerRef)

  predicate Selected(e: PendingRequest, selector: Selector)
  {
    match selector
    case AnyRequest => true
    case FromSource(address) => e.metadata.sourceAddress == address
    case WithHandler(h) => e.metadata.handler == h
  }

  /** The entries left after finalizing every selected one, in order. */
  function Unselected(pending: seq<PendingRequest>, selector: Selector): seq<PendingRequest>
  {
    if pending == [] then []
    else
      var n := |pending| - 1;
      Unselected(pending[..n], selector) + (if Selected(pending[n], selector) then [] else [pending[n]])
  }

  /** The handler calls of finalizing the selected entries, in table order. */
  function SelectedEffects(pending: seq<PendingRequest>, selector: Selector, result: Error): seq<Effect>
  {
    if pending == [] then []
    else
      var n := |pending| - 1;
      SelectedEffects(pending[..n], selector, result)
      + (if Selected(pending[n], selector) then FinalizeEffects(pending[n].metadata, None, result) else [])
  }

  /** Whether anything is selected: AbortTransaction's NotFound test. */
  lemma {:induction false} UnselectedShrinksIffSelected(pending: seq<PendingRequest>, selector: Selector)
    ensures |Unselected(pending, selector)| <= |pending|
    ensures |Unselected(pending, selector)| == |pending| <==>
              forall i | 0 <= i < |pending| :: !Selected(pending[i], selector)
  {
    if pending != [] {
      var n := |pending| - 1;
      UnselectedShrinksIffSelected(pending[..n], selector);
      assert forall i | 0 <= i < n :: pending[..n][i] == pending[i];
    }
  }

  /** Exactly the unselected entries survive a selection. */
  lemma {:induction false} UnselectedMembers(pending: seq<PendingRequest>, selector: Selector)
    ensures forall e | e in Unselected(pending, selector) :: e in pending && !Selected(e, selector)
    ensures forall e | e in pending && !Selected(e, selector) :: e in Unselected(pending, selector)
  {
    if pending != [] {
      var n := |pending| - 1;
      UnselectedMembers(pending[..n], selector);
      assert pending == pending[..n] + [pending[n]];
    }
  }
}
