/**
 * The transmit side of the POSIX TREL platform: a fixed pool of packet
 * buffers threaded on two pointer lists, a singly linked free list and a
 * circular FIFO queue of packets waiting for the socket (the tail's next
 * is the head), and the platform's transmit counters. Pointers are array
 * indices here, with -1 for NULL.
 */
module TrelPlatform {
  import opened Common

  const Null: int := -1
  /** kMaxPacketSize. */
  const MaxPacketSize: nat := 1400

  /** What SendPacket can report: sent, or the errno mapped to Abort or InvalidState. */
  predicate IsSendResult(e: Error)
  {
    e == NoError || e == Abort || e == InvalidState
  }

  datatype Packet = Packet(buffer: seq<uint8>, destAddress: seq<uint8>, destPort: uint16)

  datatype Counters = Counters(txPackets: nat, txBytes: nat, txFailure: nat)

  /** SendPacket's counting: a success adds one packet and its bytes, any failure one failure. */
  function Counted(c: Counters, length: nat, result: Error): (r: Counters)
    ensures result == NoError ==> r == c.(txPackets := c.txPackets + 1, txBytes := c.txBytes + length)
    ensures result != NoError ==> r == c.(txFailure := c.txFailure + 1)
  {
    if result == NoError then c.(txPackets := c.txPackets + 1, txBytes := c.txBytes + length)
    else c.(txFailure := c.txFailure + 1)
  }

  /** The counters after a run of send attempts. */
  function CountedAll(c: Counters, packets: seq<Packet>, results: seq<Error>): Counters
    requires |packets| == |results|
  {
    if packets == [] then c
    else
      var n := |packets| - 1;
      Counted(CountedAll(c, packets[..n], results[..n]), |packets[n].buffer|, results[n])
  }

  /** How many of the first `available` queued packets SendQueuedPackets takes off the queue. */
  function SentCount(results: seq<Error>, available: nat): (k: nat)
    requires available <= |results|
    ensures k <= available
    ensures forall i | 0 <= i < k :: results[i] != InvalidState
    ensures k < available ==> results[k] == InvalidState
  {
    if available == 0 || results[0] == InvalidState then 0
    else 1 + SentCount(results[1..], available - 1)
  }

  /** The sequence reversed: packets pushed one by one on the free list's head. */
  function Reverse<T>(s: seq<T>): (r: seq<T>)
    ensures |r| == |s|
  {
    if s == [] then [] else [s[|s| - 1]] + Reverse(s[..|s| - 1])
  }

  predicate Distinct(s: seq<int>)
  {
    forall i, j | 0 <= i < j < |s| :: s[i] != s[j]
  }

  /**
   * The entries of `list` are linked in order through `nx`, and the last
   * one points at `last`.
   */
  ghost predicate ChainedTo(nx: seq<int>, list: seq<int>, last: int)
  {
    forall i | 0 <= i < |list| ::
      0 <= list[i] < |nx| && nx[list[i]] == (if i + 1 < |list| then list[i + 1] else last)
  }

  /**
   * The two lists thread the links `nx`: every entry is on exactly one of
   * them, the free list ends in NULL, and the queue's tail points back at
   * its head.
   */
  ghost predicate Threaded(nx: seq<int>, freeHead: int, queueTail: int, free: seq<int>, queue: seq<int>)
  {
    |free| + |queue| == |nx|
    && Distinct(free + queue)
    && freeHead == (if free == [] then Null else free[0])
    && ChainedTo(nx, free, Null)
    && queueTail == (if queue == [] then Null else queue[|queue| - 1])
    && (queue != [] ==> ChainedTo(nx, queue, queue[0]))
  }

  class TrelTx {
    const pool: array<Packet>
    const next: array<int>
    var freeHead: int
    var queueTail: int
    var counters: Counters
    /** Every send attempt, in order, with its result. */
    var attempts: seq<(Packet, Error)>
    /** The free list from its head, and the queue from head to tail. */
    ghost var freeList: seq<int>
    ghost var queue: seq<int>

    /**
     * The two lists thread the pool: every entry is on exactly one of them,
     * the free list ends in NULL, and the queue's tail points back at its head.
     */
    ghost predicate Valid()
      reads this, next
    {
      next.Length == pool.Length && Threaded(next[..], freeHead, queueTail, freeList, queue)
    }

    /** The queued packets, head first. */
    ghost function Queued(): (packets: seq<Packet>)
      reads this, pool, next
      requires Valid()
      ensures |packets| == |queue|
    {
      assert forall k | 0 <= k < |queue| :: 0 <= queue[k] < pool.Length by {
        forall k | 0 <= k < |queue| ensures 0 <= queue[k] < pool.Length {
          ChainAt(next[..], queue, queue[0], k);
        }
      }
      Gather(pool[..], queue)
    }

    constructor (poolSize: nat)
      ensures Valid() && fresh(pool) && fresh(next) && pool.Length == poolSize
      ensures queue == [] && |freeList| == poolSize
      ensures counters == Counters(0, 0, 0) && attempts == []
    {
      pool := new Packet[poolSize](_ => Packet([], [], 0));
      next := new int[poolSize](_ => Null);
      freeHead, queueTail := Null, Null;
      counters, attempts := Counters(0, 0, 0), [];
      freeList, queue := [], [];
      new;
      InitPacketQueue();
    }

    /** InitPacketQueue: the queue is emptied and every pool entry is pushed on the free list. */
    method InitPacketQueue()
      requires next.Length == pool.Length
      modifies this, next
      ensures Valid() && queue == [] && |freeList| == pool.Length
      ensures forall i | 0 <= i < pool.Length :: i in freeList
      ensures counters == old(counters) && attempts == old(attempts)
    {
      queueTail := Null;
      queue := [];
      freeHead := Null;
      freeList := [];
      var index := 0;
      while index < pool.Length
        invariant 0 <= index <= pool.Length && queueTail == Null && queue == []
        invariant |freeList| == index && freeHead == index - 1
        invariant forall k | 0 <= k < index :: freeList[k] == index - 1 - k
        invariant forall j | 0 < j < index :: next[j] == j - 1
        invariant index > 0 ==> next[0] == Null
        invariant counters == old(counters) && attempts == old(attempts)
      {
        next[index] := freeHead;
        freeHead := index;
        freeList := [index] + freeList;
        index := index + 1;
      }
      forall i | 0 <= i < pool.Length
        ensures i in freeList
      {
        assert freeList[pool.Length - 1 - i] == i;
      }
    }

    /**
     * EnqueuePacket: with no free entry the packet is dropped and nothing
     * changes; otherwise the free list's head takes the packet and moves to
     * the queue's tail.
     */
    method EnqueuePacket(packet: Packet)
      requires Valid()
      modifies this, next, pool
      ensures Valid()
      ensures old(freeList) == [] ==> freeList == old(freeList) && queue == old(queue) && Queued() == old(Queued())
      ensures old(freeList) != [] ==>
                freeList == old(freeList)[1..] && queue == old(queue) + [old(freeList)[0]]
                && Queued() == old(Queued()) + [packet]
      ensures counters == old(counters) && attempts == old(attempts)
    {
      if freeHead == Null {
        return;
      }
      var p := freeHead;
      ghost var oldPool := pool[..];
      ghost var nx := next[..];
      EnqueueThreads(nx, freeList, queue);
      if queue != [] {
        ChainAt(nx, queue, queue[0], |queue| - 1);
      }
      freeHead := next[p];
      pool[p] := packet;
      if queueTail == Null {
        next[p] := p;
        assert next[..] == nx[p := p];
      } else {
        next[p] := next[queueTail];
        next[queueTail] := p;
        assert next[..] == nx[p := queue[0]][queueTail := p];
      }
      queueTail := p;
      GatherSnoc(oldPool, queue, p, packet);
      freeList := freeList[1..];
      queue := queue + [p];
    }

    /** SendPacket: the counters record the outcome of one send attempt. */
    method SendPacket(packet: Packet, result: Error)
      modifies this`counters, this`attempts
      ensures counters == Counted(old(counters), |packet.buffer|, result)
      ensures attempts == old(attempts) + [(packet, result)]
    {
      counters := Counted(counters, |packet.buffer|, result);
      attempts := attempts + [(packet, result)];
    }

    /** The relinking in SendQueuedPackets: the queue's head leaves the circle and becomes the free head. */
    method ReleaseQueueHead() returns (packet: int)
      requires Valid() && queue != []
      modifies this`queueTail, this`freeHead, this`freeList, this`queue, next
      ensures Valid()
      ensures packet == old(queue)[0] && queue == old(queue)[1..] && freeList == [packet] + old(freeList)
      ensures Queued() == old(Queued())[1..]
    {
      ghost var oldQueued := Queued();
      ghost var nx := next[..];
      ChainAt(nx, queue, queue[0], |queue| - 1);
      GatherTail(pool[..], queue);
      ReleaseThreads(nx, freeHead, freeList, queue);
      packet := next[queueTail];
      if packet == queueTail {
        queueTail := Null;
        next[packet] := freeHead;
        assert next[..] == nx[packet := freeHead];
      } else {
        next[queueTail] := next[packet];
        next[packet] := freeHead;
        assert next[..] == nx[queueTail := queue[1]][packet := freeHead];
      }
      freeHead := packet;
      freeList := [packet] + freeList;
      queue := queue[1..];
      assert Queued() == oldQueued[1..];
    }

    /**
     * SendQueuedPackets: packets are sent head first; the first one the
     * socket would block on (InvalidState) stays at the head and stops the
     * loop; packets sent or failed with Abort return to the free list.
     */
    method SendQueuedPackets(results: seq<Error>)
      requires Valid() && |results| >= |queue|
      modifies this, next
      ensures Valid()
      ensures var k := SentCount(results, |old(queue)|);
              var tried := if k < |old(queue)| then k + 1 else k;
              queue == old(queue)[k..]
              && freeList == Reverse(old(queue)[..k]) + old(freeList)
              && attempts == old(attempts) + Zip(old(Queued())[..tried], results[..tried])
              && counters == CountedAll(old(counters), old(Queued())[..tried], results[..tried])
    {
      ghost var packets, q0, free0, attempts0, counters0 := Queued(), queue, freeList, attempts, counters;
      var i := 0;
      var blocked := false;
      while queueTail != Null && !blocked
        invariant 0 <= i <= |q0|
        invariant !blocked ==> SendProgress(results, i, q0, packets, free0, attempts0, counters0)
        invariant blocked ==> SendStopped(results, i, q0, packets, free0, attempts0, counters0)
        decreases |q0| - i, !blocked
      {
        blocked := SendStep(results, i, q0, packets, free0, attempts0, counters0);
        if !blocked {
          i := i + 1;
        }
      }
      if !blocked {
        SentCountAll(results, |q0|, i);
      }
    }

    /** SendQueuedPackets after its first i packets were sent (or failed with Abort) and released. */
    ghost predicate SendProgress(results: seq<Error>, i: nat, q0: seq<int>, packets: seq<Packet>,
                                 free0: seq<int>, attempts0: seq<(Packet, Error)>, counters0: Counters)
      reads this, pool, next
    {
      Valid() && i <= |q0| == |packets| <= |results| && queue == q0[i..] && Queued() == packets[i..]
      && InvalidState !in results[..i]
      && freeList == Reverse(q0[..i]) + free0
      && attempts == attempts0 + Zip(packets[..i], results[..i])
      && counters == CountedAll(counters0, packets[..i], results[..i])
    }

    /** SendQueuedPackets when packet i would block: it was tried and stays at the head. */
    ghost predicate SendStopped(results: seq<Error>, i: nat, q0: seq<int>, packets: seq<Packet>,
                                free0: seq<int>, attempts0: seq<(Packet, Error)>, counters0: Counters)
      reads this, pool, next
    {
      Valid() && i < |q0| == |packets| <= |results| && queue == q0[i..]
      && SentCount(results, |q0|) == i
      && freeList == Reverse(q0[..i]) + free0
      && attempts == attempts0 + Zip(packets[..i + 1], results[..i + 1])
      && counters == CountedAll(counters0, packets[..i + 1], results[..i + 1])
    }

    /** One turn of the SendQueuedPackets loop. */
    method SendStep(results: seq<Error>, i: nat, ghost q0: seq<int>, ghost packets: seq<Packet>,
                    ghost free0: seq<int>, ghost attempts0: seq<(Packet, Error)>, ghost counters0: Counters)
      returns (blocked: bool)
      requires SendProgress(results, i, q0, packets, free0, attempts0, counters0) && queue != []
      modifies this, next
      ensures blocked ==> SendStopped(results, i, q0, packets, free0, attempts0, counters0)
      ensures !blocked ==> i < |q0| && SendProgress(results, i + 1, q0, packets, free0, attempts0, counters0)
    {
      var head := SendHead(results[i]);
      AttemptStep(packets, results, i, counters0);
      if results[i] == InvalidState {
        SentCountStops(results, |q0|, i);
        return true;
      }
      var released := ReleaseQueueHead();
      ReleaseStep(results, q0, packets, free0, i);
      return false;
    }

    /** One send attempt of SendQueuedPackets: the packet at the queue's head (the tail's next). */
    method SendHead(result: Error) returns (head: int)
      requires Valid() && queue != []
      modifies this`counters, this`attempts
      ensures Valid() && Queued() == old(Queued())
      ensures head == queue[0]
      ensures counters == Counted(old(counters), |Queued()[0].buffer|, result)
      ensures attempts == old(attempts) + [(Queued()[0], result)]
    {
      ChainAt(next[..], queue, queue[0], |queue| - 1);
      head := next[queueTail];
      SendPacket(pool[head], result);
    }

    /**
     * otPlatTrelSend while enabled: a non-empty queue takes the packet
     * without a send attempt, which keeps packets in order; otherwise the
     * packet is sent at once and queued only if the socket would block.
     */
    method Send(packet: Packet, result: Error)
      requires Valid() && |packet.buffer| <= MaxPacketSize
      modifies this, next, pool
      ensures Valid()
      ensures old(queue) != [] ==> attempts == old(attempts) && counters == old(counters)
      ensures old(queue) != [] && old(freeList) != [] ==>
                Queued() == old(Queued()) + [packet]
                && queue == old(queue) + [old(freeList)[0]] && freeList == old(freeList)[1..]
      ensures old(queue) != [] && old(freeList) == [] ==>
                Queued() == old(Queued()) && queue == old(queue) && freeList == old(freeList)
      ensures old(queue) == [] ==> attempts == old(attempts) + [(packet, result)]
                                   && counters == Counted(old(counters), |packet.buffer|, result)
      ensures old(queue) == [] && result == InvalidState && old(freeList) != [] ==>
                Queued() == [packet] && queue == [old(freeList)[0]] && freeList == old(freeList)[1..]
      ensures old(queue) == [] && (result != InvalidState || old(freeList) == []) ==>
                queue == [] && Queued() == [] && freeList == old(freeList)
    {
      if queueTail != Null {
        EnqueuePacket(packet);
        return;
      }
      SendPacket(packet, result);
      if result == InvalidState {
        EnqueuePacket(packet);
      }
    }
  }

  /** The packets stored at the given pool indices, in order. */
  function Gather(p: seq<Packet>, indices: seq<int>): (packets: seq<Packet>)
    requires forall k | 0 <= k < |indices| :: 0 <= indices[k] < |p|
    ensures |packets| == |indices|
  {
    seq(|indices|, k requires 0 <= k < |indices| => p[indices[k]])
  }

  /** Dropping the first index drops the first packet. */
  lemma GatherTail(p: seq<Packet>, indices: seq<int>)
    requires forall k | 0 <= k < |indices| :: 0 <= indices[k] < |p|
    requires indices != []
    ensures Gather(p, indices[1..]) == Gather(p, indices)[1..]
  {
  }

  /** Storing a packet at a fresh index and appending the index appends the packet. */
  lemma GatherSnoc(p: seq<Packet>, indices: seq<int>, x: int, packet: Packet)
    requires forall k | 0 <= k < |indices| :: 0 <= indices[k] < |p|
    requires 0 <= x < |p| && x !in indices
    ensures Gather(p[x := packet], indices + [x]) == Gather(p, indices) + [packet]
  {
    assert forall k | 0 <= k < |indices| :: indices[k] in indices;
  }

  /** The parts of a distinct concatenation are distinct and share no entry. */
  lemma DistinctParts(a: seq<int>, b: seq<int>)
    requires Distinct(a + b)
    ensures Distinct(a) && Distinct(b)
    ensures forall x | x in a :: x !in b
  {
    forall i, j | 0 <= i < j < |b| ensures b[i] != b[j] {
      assert (a + b)[|a| + i] == b[i] && (a + b)[|a| + j] == b[j];
    }
    forall i, j | 0 <= i < |a| && 0 <= j < |b| ensures a[i] != b[j] {
      assert (a + b)[i] == a[i] && (a + b)[|a| + j] == b[j];
    }
    forall i, j | 0 <= i < j < |a| ensures a[i] != a[j] {
      assert (a + b)[i] == a[i] && (a + b)[j] == a[j];
    }
  }

  lemma DistinctAt(s: seq<int>, i: nat, j: nat)
    requires Distinct(s) && i < j < |s|
    ensures s[i] != s[j]
  {
  }

  /** One link of a chain. */
  lemma ChainAt(nx: seq<int>, list: seq<int>, last: int, i: nat)
    requires ChainedTo(nx, list, last) && i < |list|
    ensures 0 <= list[i] < |nx| && nx[list[i]] == (if i + 1 < |list| then list[i + 1] else last)
  {
  }

  /** A chain without its first entry is still a chain to the same end. */
  lemma ChainTail(nx: seq<int>, list: seq<int>, last: int)
    requires ChainedTo(nx, list, last) && list != []
    ensures ChainedTo(nx, list[1..], last)
  {
    forall i | 0 <= i < |list| - 1 ensures list[1..][i] == list[i + 1] { }
    forall i | 0 <= i < |list[1..]|
      ensures 0 <= list[1..][i] < |nx| && nx[list[1..][i]] == (if i + 1 < |list[1..]| then list[1..][i + 1] else last)
    {
      ChainAt(nx, list, last, i + 1);
    }
  }

  /** Pushing an entry outside the chain in front of it. */
  lemma ChainPush(nx: seq<int>, list: seq<int>, last: int, x: int)
    requires ChainedTo(nx, list, last) && x !in list && 0 <= x < |nx|
    ensures ChainedTo(nx[x := if list == [] then last else list[0]], [x] + list, last)
  {
    var nx' := nx[x := if list == [] then last else list[0]];
    ChainUnaffected(nx, list, last, x, if list == [] then last else list[0]);
    forall i | 0 <= i < |[x] + list|
      ensures 0 <= ([x] + list)[i] < |nx'|
              && nx'[([x] + list)[i]] == (if i + 1 < |[x] + list| then ([x] + list)[i + 1] else last)
    {
      if i > 0 {
        ChainAt(nx', list, last, i - 1);
      }
    }
  }

  /** A chain is unaffected by rewriting a link outside it. */
  lemma ChainUnaffected(nx: seq<int>, list: seq<int>, last: int, x: int, v: int)
    requires ChainedTo(nx, list, last) && x !in list && 0 <= x < |nx|
    ensures ChainedTo(nx[x := v], list, last)
  {
    forall i | 0 <= i < |list| ensures nx[x := v][list[i]] == nx[list[i]] {
      assert list[i] in list;
    }
  }

  /** EnqueuePacket's relinking: the free list loses its head, which joins the queue at its tail. */
  lemma ChainAfterEnqueue(nx: seq<int>, free: seq<int>, queue: seq<int>)
    requires free != [] && Distinct(free) && Distinct(queue) && forall x | x in free :: x !in queue
    requires ChainedTo(nx, free, Null)
    requires queue != [] ==> ChainedTo(nx, queue, queue[0])
    ensures 0 <= free[0] < |nx|
    ensures var p := free[0];
            var nx' := if queue == [] then nx[p := p] else nx[p := queue[0]][queue[|queue| - 1] := p];
            ChainedTo(nx', free[1..], Null) && ChainedTo(nx', queue + [p], (queue + [p])[0])
  {
    var p := free[0];
    ChainAt(nx, free, Null, 0);
    var rest := free[1..];
    assert p !in rest by {
      forall j | 0 <= j < |rest| ensures rest[j] != p {
        DistinctAt(free, 0, j + 1);
      }
    }
    assert p !in queue;
    ChainTail(nx, free, Null);
    if queue == [] {
      ChainUnaffected(nx, rest, Null, p, p);
      assert ChainedTo(nx[p := p], [p], p);
    } else {
      var t := queue[|queue| - 1];
      ChainAt(nx, queue, queue[0], |queue| - 1);
      var nx1 := nx[p := queue[0]];
      var nx' := nx1[t := p];
      ChainUnaffected(nx, rest, Null, p, queue[0]);
      assert t !in rest by {
        forall x | x in rest ensures x != t { assert x in free; }
      }
      ChainUnaffected(nx1, rest, Null, t, p);
      ChainUnaffected(nx, queue, queue[0], p, queue[0]);
      var q' := queue + [p];
      forall i | 0 <= i < |q'|
        ensures 0 <= q'[i] < |nx'| && nx'[q'[i]] == (if i + 1 < |q'| then q'[i + 1] else q'[0])
      {
        if i < |queue| - 1 {
          ChainAt(nx1, queue, queue[0], i);
          DistinctAt(queue, i, |queue| - 1);
        } else if i == |queue| - 1 {
          assert q'[i] == t;
        }
      }
    }
  }

  /** EnqueuePacket's relinking keeps the lists threaded. */
  lemma EnqueueThreads(nx: seq<int>, free: seq<int>, queue: seq<int>)
    requires free != [] && Threaded(nx, free[0], if queue == [] then Null else queue[|queue| - 1], free, queue)
    ensures var p := free[0];
            var nx' := if queue == [] then nx[p := p] else nx[p := queue[0]][queue[|queue| - 1] := p];
            0 <= p < |nx| && p !in queue
            && Threaded(nx', nx[p], p, free[1..], queue + [p])
  {
    DistinctParts(free, queue);
    ChainAt(nx, free, Null, 0);
    ChainAfterEnqueue(nx, free, queue);
    MoveFreeToQueue(free, queue);
  }

  /** SendQueuedPackets' relinking keeps the lists threaded. */
  lemma ReleaseThreads(nx: seq<int>, freeHead: int, free: seq<int>, queue: seq<int>)
    requires queue != [] && Threaded(nx, freeHead, queue[|queue| - 1], free, queue)
    ensures var h, t := queue[0], queue[|queue| - 1];
            var nx' := if h == t then nx[h := freeHead] else nx[t := queue[1]][h := freeHead];
            0 <= t < |nx| && nx[t] == h && (h == t <==> |queue| == 1)
            && (h != t ==> nx[h] == queue[1])
            && Threaded(nx', h, if h == t then Null else t, [h] + free, queue[1..])
  {
    ChainAt(nx, queue, queue[0], |queue| - 1);
    ChainAt(nx, queue, queue[0], 0);
    DistinctParts(free, queue);
    if |queue| > 1 {
      DistinctAt(queue, 0, |queue| - 1);
    }
    ChainAfterRelease(nx, free, queue);
    MoveQueueToFree(free, queue);
  }

  /** SendQueuedPackets' relinking: the queue's head leaves the circle and becomes the free head. */
  lemma ChainAfterRelease(nx: seq<int>, free: seq<int>, queue: seq<int>)
    requires queue != [] && Distinct(free) && Distinct(queue) && forall x | x in free :: x !in queue
    requires ChainedTo(nx, free, Null) && ChainedTo(nx, queue, queue[0])
    ensures var h := queue[0];
            var head := if free == [] then Null else free[0];
            var nx' := if |queue| == 1 then nx[h := head] else nx[queue[|queue| - 1] := queue[1]][h := head];
            ChainedTo(nx', [h] + free, Null)
            && (queue[1..] != [] ==> ChainedTo(nx', queue[1..], queue[1..][0]))
  {
    var h := queue[0];
    var head := if free == [] then Null else free[0];
    var rest := queue[1..];
    ChainAt(nx, queue, queue[0], 0);
    assert h !in free;
    if |queue| == 1 {
      ChainPush(nx, free, Null, h);
    } else {
      var t := queue[|queue| - 1];
      DistinctAt(queue, 0, |queue| - 1);
      ChainAt(nx, queue, queue[0], |queue| - 1);
      var nx1 := nx[t := queue[1]];
      assert t !in free by { assert t in queue; }
      ChainUnaffected(nx, free, Null, t, queue[1]);
      ChainPush(nx1, free, Null, h);
      var nx' := nx1[h := head];
      forall i | 0 <= i < |rest|
        ensures 0 <= rest[i] < |nx'| && nx'[rest[i]] == (if i + 1 < |rest| then rest[i + 1] else rest[0])
      {
        ChainAt(nx, queue, queue[0], i + 1);
        DistinctAt(queue, 0, i + 1);
        if i + 1 < |rest| {
          DistinctAt(queue, i + 1, |queue| - 1);
        }
      }
    }
  }

  function Zip(packets: seq<Packet>, results: seq<Error>): (r: seq<(Packet, Error)>)
    requires |packets| == |results|
    ensures |r| == |packets|
    ensures forall i | 0 <= i < |r| :: r[i] == (packets[i], results[i])
  {
    seq(|packets|, i requires 0 <= i < |packets| => (packets[i], results[i]))
  }

  // ---------------------------------------------------------------------
  // List surgery
  // ---------------------------------------------------------------------

  /** Moving the free head to the queue's tail keeps the entries distinct. */
  lemma MoveFreeToQueue(free: seq<int>, queue: seq<int>)
    requires free != [] && Distinct(free + queue)
    ensures Distinct(free[1..] + (queue + [free[0]]))
    ensures forall x :: x in free[1..] + (queue + [free[0]]) <==> x in free + queue
  {
    var before, after := free + queue, free[1..] + (queue + [free[0]]);
    forall i, j | 0 <= i < j < |after|
      ensures after[i] != after[j]
    {
      var bi := if i < |free| - 1 then i + 1 else if i < |after| - 1 then i + 1 else 0;
      var bj := if j < |free| - 1 then j + 1 else if j < |after| - 1 then j + 1 else 0;
      assert after[i] == before[bi] && after[j] == before[bj];
    }
    assert forall x :: x in after <==> x in before by {
      forall x | x in before ensures x in after {
        var k :| 0 <= k < |before| && before[k] == x;
        if k == 0 { assert after[|after| - 1] == x; } else { assert after[k - 1] == x; }
      }
    }
  }

  /** Moving the queue's head onto the free list keeps the entries distinct. */
  lemma MoveQueueToFree(free: seq<int>, queue: seq<int>)
    requires queue != [] && Distinct(free + queue)
    ensures Distinct([queue[0]] + free + queue[1..])
    ensures forall x :: x in [queue[0]] + free + queue[1..] <==> x in free + queue
  {
    var before, after := free + queue, [queue[0]] + free + queue[1..];
    forall i, j | 0 <= i < j < |after|
      ensures after[i] != after[j]
    {
      var bi := if i == 0 then |free| else if i <= |free| then i - 1 else i;
      var bj := if j == 0 then |free| else if j <= |free| then j - 1 else j;
      assert after[i] == before[bi] && after[j] == before[bj];
    }
    assert forall x :: x in after <==> x in before by {
      forall x | x in before ensures x in after {
        var k :| 0 <= k < |before| && before[k] == x;
        if k < |free| { assert after[k + 1] == x; }
        else if k == |free| { assert after[0] == x; }
        else { assert after[k] == x; }
      }
    }
  }

  lemma ReverseSnoc(s: seq<int>, i: nat)
    requires i < |s|
    ensures Reverse(s[..i + 1]) == [s[i]] + Reverse(s[..i])
  {
    assert s[..i + 1][..i] == s[..i];
  }

  /** The released head moves from the queue's part of the snapshot to the free list's. */
  lemma ReleaseStep(results: seq<Error>, q0: seq<int>, packets: seq<Packet>, free0: seq<int>, i: nat)
    requires i < |q0| == |packets| <= |results|
    requires InvalidState !in results[..i] && results[i] != InvalidState
    ensures InvalidState !in results[..i + 1]
    ensures q0[i..][1..] == q0[i + 1..] && packets[i..][1..] == packets[i + 1..]
    ensures [q0[i]] + (Reverse(q0[..i]) + free0) == Reverse(q0[..i + 1]) + free0
  {
    ReverseSnoc(q0, i);
    assert results[..i + 1] == results[..i] + [results[i]];
    ConcatAssociates([q0[i]], Reverse(q0[..i]), free0);
  }

  /** One send attempt extends the attempt log and the counters by one entry. */
  lemma AttemptStep(packets: seq<Packet>, results: seq<Error>, i: nat, c: Counters)
    requires i < |packets| && i < |results|
    ensures Zip(packets[..i + 1], results[..i + 1]) == Zip(packets[..i], results[..i]) + [(packets[i], results[i])]
    ensures CountedAll(c, packets[..i + 1], results[..i + 1])
            == Counted(CountedAll(c, packets[..i], results[..i]), |packets[i].buffer|, results[i])
  {
    assert packets[..i + 1][..i] == packets[..i];
    assert results[..i + 1][..i] == results[..i];
  }

  /** The loop stopped at a blocked send: exactly i packets left the queue. */
  lemma {:induction false} SentCountStops(results: seq<Error>, available: nat, i: nat)
    requires i < available <= |results|
    requires InvalidState !in results[..i]
    requires results[i] == InvalidState
    ensures SentCount(results, available) == i
  {
    if i > 0 {
      assert results[1..][..i - 1] == results[1..i];
      SentCountStops(results[1..], available - 1, i - 1);
    }
  }

  /** The loop emptied the queue: every packet left it. */
  lemma {:induction false} SentCountAll(results: seq<Error>, available: nat, i: nat)
    requires i == available <= |results|
    requires InvalidState !in results[..i]
    ensures SentCount(results, available) == available
  {
    if i > 0 {
      assert results[1..][..i - 1] == results[1..i];
      SentCountAll(results[1..], available - 1, i - 1);
    }
  }

  /** A failure never counts as a packet sent, and each attempt moves exactly one counter. */
  lemma {:induction false} CountedAllTotals(c: Counters, packets: seq<Packet>, results: seq<Error>)
    requires |packets| == |results|
    ensures var r := CountedAll(c, packets, results);
            r.txPackets + r.txFailure == c.txPackets + c.txFailure + |packets|
            && r.txPackets >= c.txPackets && r.txFailure >= c.txFailure && r.txBytes >= c.txBytes
  {
    if packets != [] {
      var n := |packets| - 1;
      CountedAllTotals(c, packets[..n], results[..n]);
    }
  }
}
