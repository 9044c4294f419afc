/**
 * The CoAP responses cache (ResponsesQueue): responses to confirmable
 * requests are kept for one exchange lifetime so that a retransmitted
 * request is answered with the same response instead of being processed
 * again (section 4.5 of RFC 7252).
 */
module CoapResponses {
  import opened Common
  import opened Ip6Address
  import opened CoapTypes

  /** kMaxCachedResponses. */
  const MaxCachedResponses: nat := 10

  /** A cached response with the ResponseMetadata trailer: its peer and when it expires. */
  datatype CachedResponse = CachedResponse(response: Message, peerAddr: Address, peerPort: uint16, dequeueTime: nat)

  /** The same message ID from the same peer address and port. */
  predicate Matches(entry: CachedResponse, messageId: uint16, info: MessageInfo)
  {
    entry.response.messageId == messageId && entry.peerAddr == info.peerAddr && entry.peerPort == info.peerPort
  }

  predicate SameKey(a: CachedResponse, b: CachedResponse)
  {
    a.response.messageId == b.response.messageId && a.peerAddr == b.peerAddr && a.peerPort == b.peerPort
  }

  /** No two cached responses answer the same message ID from the same peer. */
  predicate DistinctKeys(queue: seq<CachedResponse>)
  {
    forall i, j | 0 <= i < j < |queue| :: !SameKey(queue[i], queue[j])
  }

  /** The entries whose dequeue time has not been reached, in order. */
  function Unexpired(queue: seq<CachedResponse>, now: nat): (kept: seq<CachedResponse>)
    ensures |kept| <= |queue|
    ensures forall e :: e in kept <==> e in queue && now < e.dequeueTime
  {
    if queue == [] then []
    else if now >= queue[0].dequeueTime then Unexpired(queue[1..], now)
    else [queue[0]] + Unexpired(queue[1..], now)
  }

  /** The earliest dequeue time, or None for an empty queue. */
  function EarliestDequeueTime(queue: seq<CachedResponse>): (t: Option<nat>)
    ensures t.None? <==> queue == []
    ensures t.Some? ==> (exists e :: e in queue && e.dequeueTime == t.value)
                        && forall e :: e in queue ==> t.value <= e.dequeueTime
  {
    if queue == [] then None
    else
      match EarliestDequeueTime(queue[1..])
      case None => Some(queue[0].dequeueTime)
      case Some(t) => Some(if queue[0].dequeueTime <= t then queue[0].dequeueTime else t)
  }

  /**
   * The entry UpdateQueue's scan settles on: the first whose dequeue time is
   * strictly smaller than every earlier one's and no larger than any later one's.
   */
  function EarliestIndex(queue: seq<CachedResponse>): (k: nat)
    requires |queue| > 0
    ensures k < |queue|
    ensures forall j | 0 <= j < |queue| :: queue[k].dequeueTime <= queue[j].dequeueTime
    ensures forall j | 0 <= j < k :: queue[j].dequeueTime > queue[k].dequeueTime
  {
    if |queue| == 1 then 0
    else
      var k := EarliestIndex(queue[..|queue| - 1]);
      if queue[|queue| - 1].dequeueTime < queue[k].dequeueTime then |queue| - 1 else k
  }

  /** The queue after UpdateQueue: a full cache loses the entry that expires first. */
  function Evicted(queue: seq<CachedResponse>): (r: seq<CachedResponse>)
    ensures |r| == if |queue| >= MaxCachedResponses then |queue| - 1 else |queue|
    ensures forall e :: e in r ==> e in queue
    ensures |queue| < MaxCachedResponses ==> r == queue
    ensures |queue| >= MaxCachedResponses ==>
              exists k | 0 <= k < |queue| :: r == RemoveAt(queue, k)
                && forall j | 0 <= j < |queue| :: queue[k].dequeueTime <= queue[j].dequeueTime
    ensures DistinctKeys(queue) ==> DistinctKeys(r)
  {
    if |queue| >= MaxCachedResponses then
      var k := EarliestIndex(queue);
      RemoveAtKeepsDistinct(queue, k);
      RemoveAt(queue, k)
    else queue
  }

  /**
   * TimerMilli::FireAtIfEarlier on the cache's timer: a stopped timer starts
   * at `time`, a running one moves to `time` when that comes first.
   */
  function FireNoLaterThan(timer: Option<nat>, time: nat): (r: Option<nat>)
    ensures r.Some? && r.value <= time
    ensures r.value == time || r == timer
    ensures timer.Some? ==> r.value <= timer.value
  {
    if timer.None? || time < timer.value then Some(time) else timer
  }

  class ResponsesQueue {
    var queue: seq<CachedResponse>
    /** When the expiry timer fires; None while it is stopped. */
    var timer: Option<nat>

    ghost predicate Valid()
      reads this
    {
      |queue| <= MaxCachedResponses && DistinctKeys(queue)
    }

    constructor ()
      ensures Valid() && queue == [] && timer == None
    {
      queue := [];
      timer := None;
    }

    /** FindMatchedResponse: the first cached response with this message ID and peer. */
    method FindMatchedResponse(messageId: uint16, info: MessageInfo) returns (index: Option<nat>)
      ensures index.Some? ==> index.value < |queue| && Matches(queue[index.value], messageId, info)
      ensures index.Some? ==> forall j | 0 <= j < index.value :: !Matches(queue[j], messageId, info)
      ensures index.None? ==> forall j | 0 <= j < |queue| :: !Matches(queue[j], messageId, info)
    {
      var i := 0;
      while i < |queue|
        invariant 0 <= i <= |queue|
        invariant forall j | 0 <= j < i :: !Matches(queue[j], messageId, info)
      {
        if Matches(queue[i], messageId, info) {
          return Some(i);
        }
        i := i + 1;
      }
      return None;
    }

    /**
     * GetMatchedResponseCopy: NotFound when nothing is cached for this
     * request, NoBufs when the copy cannot be allocated, otherwise the
     * cached response.
     */
    method GetMatchedResponseCopy(messageId: uint16, info: MessageInfo, cloneSucceeds: bool)
      returns (error: Error, copy: Option<Message>)
      ensures error == NotFound <==> forall j | 0 <= j < |queue| :: !Matches(queue[j], messageId, info)
      ensures error == NoError <==> copy.Some?
      ensures error == NoError || error == NoBufs || error == NotFound
      ensures error != NotFound ==> (error == NoError <==> cloneSucceeds)
      ensures copy.Some? ==> exists j | 0 <= j < |queue| :: Matches(queue[j], messageId, info)
                                                            && queue[j].response == copy.value
    {
      var index := FindMatchedResponse(messageId, info);
      if index.None? {
        return NotFound, None;
      }
      if !cloneSucceeds {
        return NoBufs, None;
      }
      return NoError, Some(queue[index.value].response);
    }

    /** The first entry whose dequeue time is strictly the earliest. */
    method EarliestEntry() returns (index: nat)
      requires |queue| > 0
      ensures index < |queue|
      ensures forall j | 0 <= j < |queue| :: queue[index].dequeueTime <= queue[j].dequeueTime
      ensures forall j | 0 <= j < index :: queue[j].dequeueTime > queue[index].dequeueTime
      ensures index == EarliestIndex(queue)
    {
      index := 0;
      var i := 1;
      while i < |queue|
        invariant 1 <= i <= |queue| && index < i
        invariant index == EarliestIndex(queue[..i])
      {
        assert queue[..i + 1][..i] == queue[..i];
        if queue[i].dequeueTime < queue[index].dequeueTime {
          index := i;
        }
        i := i + 1;
      }
      assert queue[..i] == queue;
    }

    /** UpdateQueue: when the cache is full, evict the entry that expires first. */
    method UpdateQueue()
      requires Valid()
      modifies this`queue
      ensures Valid() && |queue| < MaxCachedResponses
      ensures queue == Evicted(old(queue))
    {
      if |queue| >= MaxCachedResponses {
        var k := EarliestEntry();
        queue := RemoveAt(queue, k);
      }
    }

    /**
     * EnqueueResponse: cache a response for one exchange lifetime, unless a
     * response with the same message ID and peer is already cached. Room is
     * made first; the copy or its trailer may then fail to allocate.
     */
    method EnqueueResponse(response: Message, info: MessageInfo, now: nat, exchangeLifetime: nat,
                           cloneSucceeds: bool, appendSucceeds: bool)
      requires Valid()
      modifies this
      ensures Valid()
      ensures (exists j | 0 <= j < |old(queue)| :: Matches(old(queue)[j], response.messageId, info)) ==>
                queue == old(queue) && timer == old(timer)
      ensures (forall j | 0 <= j < |old(queue)| :: !Matches(old(queue)[j], response.messageId, info)) ==>
                queue == Evicted(old(queue))
                         + (if cloneSucceeds && appendSucceeds
                            then [CachedResponse(response, info.peerAddr, info.peerPort, now + exchangeLifetime)]
                            else [])
                && timer == if cloneSucceeds && appendSucceeds
                            then FireNoLaterThan(old(timer), now + exchangeLifetime)
                            else old(timer)
      ensures forall e :: e in queue ==>
                (e in old(queue) || e == CachedResponse(response, info.peerAddr, info.peerPort, now + exchangeLifetime))
    {
      var entry := CachedResponse(response, info.peerAddr, info.peerPort, now + exchangeLifetime);
      var found := FindMatchedResponse(response.messageId, info);
      if found.Some? {
        return;
      }
      UpdateQueue();
      if !cloneSucceeds || !appendSucceeds {
        return;
      }
      AppendKeepsDistinct(queue, entry);
      queue := queue + [entry];
      timer := FireNoLaterThan(timer, entry.dequeueTime);
    }

    /** DequeueAllResponses: empty the cache and stop its timer. */
    method DequeueAllResponses()
      modifies this
      ensures Valid() && queue == [] && timer == None
    {
      queue := [];
      timer := None;
    }

    /**
     * HandleTimer: in one sweep, drop every response whose dequeue time has
     * been reached and re-arm the timer at the earliest remaining one.
     */
    method HandleTimer(now: nat)
      requires Valid()
      modifies this
      ensures Valid()
      ensures queue == Unexpired(old(queue), now)
      ensures timer == EarliestDequeueTime(queue)
    {
      var q := queue;
      var kept: seq<CachedResponse> := [];
      var i := 0;
      while i < |q|
        invariant 0 <= i <= |q|
        invariant kept == Unexpired(q[..i], now)
      {
        UnexpiredAppend(q[..i], q[i], now);
        assert q[..i + 1] == q[..i] + [q[i]];
        if now < q[i].dequeueTime {
          kept := kept + [q[i]];
        }
        i := i + 1;
      }
      assert q[..i] == q;
      UnexpiredKeepsDistinct(q, now);
      queue := kept;
      timer := EarliestDequeueTime(kept);
    }
  }

  lemma {:induction false} UnexpiredAppend(queue: seq<CachedResponse>, e: CachedResponse, now: nat)
    ensures Unexpired(queue + [e], now)
            == Unexpired(queue, now) + (if now < e.dequeueTime then [e] else [])
  {
    if queue == [] {
      assert [e][1..] == [];
    } else {
      assert (queue + [e])[1..] == queue[1..] + [e];
      UnexpiredAppend(queue[1..], e, now);
    }
  }

  /** Expiry keeps the entries it does not drop in order, so keys stay distinct. */
  lemma {:induction false} UnexpiredKeepsDistinct(queue: seq<CachedResponse>, now: nat)
    requires DistinctKeys(queue)
    ensures DistinctKeys(Unexpired(queue, now))
  {
    if queue != [] {
      UnexpiredKeepsDistinct(queue[1..], now);
      var rest := Unexpired(queue[1..], now);
      forall e | e in rest ensures !SameKey(queue[0], e) {
        var j :| 0 <= j < |queue[1..]| && queue[1..][j] == e;
        assert queue[j + 1] == e;
      }
    }
  }

  lemma RemoveAtKeepsDistinct(queue: seq<CachedResponse>, k: nat)
    requires k < |queue|
    ensures DistinctKeys(queue) ==> DistinctKeys(RemoveAt(queue, k))
  {
    var r := RemoveAt(queue, k);
    if DistinctKeys(queue) {
      forall i, j | 0 <= i < j < |r| ensures !SameKey(r[i], r[j]) {
        var i', j' := if i < k then i else i + 1, if j < k then j else j + 1;
        assert r[i] == queue[i'] && r[j] == queue[j'];
      }
    }
  }

  lemma AppendKeepsDistinct(queue: seq<CachedResponse>, e: CachedResponse)
    requires DistinctKeys(queue)
    requires forall j | 0 <= j < |queue| :: !SameKey(queue[j], e)
    ensures DistinctKeys(queue + [e])
  {
  }
}
