/**
 * Child supervision: the parent's ChildSupervisor, which ticks once a second
 * and sends an empty supervision frame to every sleepy child it has not sent
 * to within the child's supervision interval, and the child's
 * SupervisionListener, which restarts a timer on every secure frame from
 * the parent and asks the parent for a Child Update when it fires.
 */
module ChildSupervision {
  import opened Common

  /** The fields of a Child entry the supervisor reads and updates. */
  datatype Child = Child(
    valid: bool,
    rxOnWhenIdle: bool,
    supervisionInterval: uint16,
    secondsSinceLastSupervision: nat,
    indirectMessageCount: nat)

  /** Children HandleTimeTick leaves alone: not valid, rx-on-when-idle, or interval 0. */
  predicate Supervised(c: Child)
  {
    c.valid && !c.rxOnWhenIdle && c.supervisionInterval != 0
  }

  /** A child after one tick. */
  function Ticked(c: Child): (t: Child)
    ensures t.valid == c.valid && t.rxOnWhenIdle == c.rxOnWhenIdle
    ensures t.supervisionInterval == c.supervisionInterval && t.indirectMessageCount == c.indirectMessageCount
    ensures t.secondsSinceLastSupervision == c.secondsSinceLastSupervision + (if Supervised(c) then 1 else 0)
  {
    if Supervised(c) then c.(secondsSinceLastSupervision := c.secondsSinceLastSupervision + 1) else c
  }

  /**
   * Whether the tick sends a supervision message to the child at this
   * position: its counter has reached the interval, it has no queued
   * indirect message, and the message buffer could be allocated.
   */
  predicate SendsOnTick(c: Child, allocates: bool)
  {
    Supervised(c) && Ticked(c).secondsSinceLastSupervision >= c.supervisionInterval
    && c.indirectMessageCount == 0 && allocates
  }

  /** The children of a table after one tick, by prefix. */
  function TickedAll(children: seq<Child>): (r: seq<Child>)
    ensures |r| == |children|
  {
    if children == [] then []
    else TickedAll(children[..|children| - 1]) + [Ticked(children[|children| - 1])]
  }

  /** The child indices the tick sends supervision messages to, in table order. */
  function Sends(children: seq<Child>, allocates: seq<bool>): seq<nat>
    requires |allocates| == |children|
  {
    if children == [] then []
    else
      var n := |children| - 1;
      Sends(children[..n], allocates[..n]) + (if SendsOnTick(children[n], allocates[n]) then [n] else [])
  }

  class ChildSupervisor {
    var children: seq<Child>
    /** Indices of the children a supervision message was queued for. */
    var sent: seq<nat>
    /** Whether the supervisor is registered with the time ticker. */
    var registered: bool

    constructor (table: seq<Child>)
      ensures children == table && sent == [] && !registered
    {
      children, sent, registered := table, [], false;
    }

    /** SendMessage: only when the child has no queued indirect message and a buffer is allocated. */
    method SendMessage(index: nat, allocates: bool)
      requires index < |children|
      modifies this`sent
      ensures sent == old(sent) + (if children[index].indirectMessageCount == 0 && allocates then [index] else [])
    {
      if children[index].indirectMessageCount == 0 && allocates {
        sent := sent + [index];
      }
    }

    /** UpdateOnSend: a frame to the child resets its counter. */
    method UpdateOnSend(index: nat)
      requires index < |children|
      modifies this`children
      ensures children == old(children)[index := old(children)[index].(secondsSinceLastSupervision := 0)]
    {
      children := children[index := children[index].(secondsSinceLastSupervision := 0)];
    }

    method HandleTimeTick(allocates: seq<bool>)
      requires |allocates| == |children|
      modifies this`children, this`sent
      ensures children == TickedAll(old(children))
      ensures sent == old(sent) + Sends(old(children), allocates)
    {
      var snapshot := children;
      var i := 0;
      while i < |snapshot|
        invariant 0 <= i <= |snapshot| && snapshot == old(children)
        invariant children == TickedAll(snapshot[..i]) + snapshot[i..]
        invariant sent == old(sent) + Sends(snapshot[..i], allocates[..i])
      {
        var child := snapshot[i];
        TickStep(snapshot, allocates, i);
        TickUpdate(snapshot, i);
        if Supervised(child) {
          children := children[i := Ticked(child)];
          if child.secondsSinceLastSupervision + 1 >= child.supervisionInterval {
            SendMessage(i, allocates[i]);
          }
        }
        i := i + 1;
      }
      assert snapshot[..i] == snapshot;
      assert allocates[..i] == allocates;
    }

    /** CheckState: registered exactly while MLE is enabled and some child is valid. */
    method CheckState(mleDisabled: bool)
      modifies this`registered
      ensures registered <==> !mleDisabled && exists i :: 0 <= i < |children| && children[i].valid
    {
      var hasValid := HasValidChild(children);
      if !mleDisabled && hasValid {
        registered := true;
      } else {
        registered := false;
      }
    }
  }

  /** ChildTable::HasChildren(kInStateValid). */
  method HasValidChild(children: seq<Child>) returns (found: bool)
    ensures found <==> exists i :: 0 <= i < |children| && children[i].valid
  {
    found := false;
    var i := 0;
    while i < |children|
      invariant 0 <= i <= |children|
      invariant found <==> exists k :: 0 <= k < i && children[k].valid
    {
      found := found || children[i].valid;
      i := i + 1;
    }
  }

  /** One step of HandleTimeTick, stated on the prefix functions. */
  lemma TickStep(children: seq<Child>, allocates: seq<bool>, i: nat)
    requires i < |children| == |allocates|
    ensures TickedAll(children[..i + 1]) == TickedAll(children[..i]) + [Ticked(children[i])]
    ensures Sends(children[..i + 1], allocates[..i + 1])
            == Sends(children[..i], allocates[..i]) + (if SendsOnTick(children[i], allocates[i]) then [i] else [])
  {
    assert children[..i + 1][..i] == children[..i];
    assert allocates[..i + 1][..i] == allocates[..i];
  }

  /** Writing the ticked child at position i extends the ticked prefix by one. */
  lemma TickUpdate(children: seq<Child>, i: nat)
    requires i < |children|
    ensures (TickedAll(children[..i]) + children[i..])[i := Ticked(children[i])]
            == TickedAll(children[..i + 1]) + children[i + 1..]
    ensures !Supervised(children[i]) ==>
              TickedAll(children[..i]) + children[i..] == TickedAll(children[..i + 1]) + children[i + 1..]
  {
    assert children[..i + 1][..i] == children[..i];
  }

  /** The tick sends to a child only when it is supervised, due, and has nothing queued. */
  lemma {:induction false} SendsOnlyWhenDue(children: seq<Child>, allocates: seq<bool>, k: nat)
    requires |allocates| == |children|
    ensures k in Sends(children, allocates) <==>
              k < |children| && SendsOnTick(children[k], allocates[k])
  {
    if children != [] {
      var n := |children| - 1;
      SendsOnlyWhenDue(children[..n], allocates[..n], k);
      if k < n {
        assert children[..n][k] == children[k];
        assert allocates[..n][k] == allocates[k];
      }
      BoundedSends(children[..n], allocates[..n]);
    }
  }

  /** Every index a tick sends to is a position of the table. */
  lemma {:induction false} BoundedSends(children: seq<Child>, allocates: seq<bool>)
    requires |allocates| == |children|
    ensures forall k | k in Sends(children, allocates) :: k < |children|
  {
    if children != [] {
      var n := |children| - 1;
      BoundedSends(children[..n], allocates[..n]);
    }
  }

  /** The tick touches only supervised children, whose counter grows by one. */
  lemma {:induction false} TickedAllElements(children: seq<Child>, k: nat)
    requires k < |children|
    ensures TickedAll(children)[k] == Ticked(children[k])
  {
    var n := |children| - 1;
    if k < n {
      TickedAllElements(children[..n], k);
    }
  }

  // ---------------------------------------------------------------------
  // SupervisionListener
  // ---------------------------------------------------------------------

  /** What the listener asks of MLE and the mesh forwarder. */
  datatype Device = Device(mleDisabled: bool, isChild: bool, rxOnWhenIdle: bool)

  /** RestartTimer's condition for running the timer. */
  predicate TimerShouldRun(timeout: uint16, device: Device)
  {
    timeout != 0 && !device.mleDisabled && !device.rxOnWhenIdle
  }

  class SupervisionListener {
    var timeout: uint16
    var interval: uint16
    var timerRunning: bool
    /** When the running timer fires, in milliseconds. */
    var timerFireTime: nat
    var counter: nat
    /** Child Update Requests sent to the parent. */
    var childUpdateRequests: nat

    /** The timeout starts at 0 and is then set to the default, which starts the timer when it should run. */
    constructor (defaultTimeout: uint16, defaultInterval: uint16, device: Device, now: nat)
      ensures timeout == defaultTimeout && interval == defaultInterval
      ensures timerRunning <==> TimerShouldRun(defaultTimeout, device) && (defaultTimeout != 0)
      ensures timerRunning ==> timerFireTime == now + defaultTimeout * 1000
      ensures counter == 0 && childUpdateRequests == 0
    {
      timeout, interval := 0, defaultInterval;
      timerRunning, timerFireTime := false, 0;
      counter, childUpdateRequests := 0, 0;
      new;
      SetTimeout(defaultTimeout, device, now);
    }

    method RestartTimer(device: Device, now: nat)
      modifies this`timerRunning, this`timerFireTime
      ensures timerRunning <==> TimerShouldRun(timeout, device)
      ensures timerRunning ==> timerFireTime == now + timeout * 1000
      ensures !timerRunning ==> timerFireTime == old(timerFireTime)
    {
      if TimerShouldRun(timeout, device) {
        timerRunning := true;
        timerFireTime := now + timeout * 1000;
      } else {
        timerRunning := false;
      }
    }

    /** SetInterval: a no-op when unchanged; otherwise a child tells its parent. */
    method SetInterval(newInterval: uint16, device: Device)
      modifies this`interval, this`childUpdateRequests
      ensures interval == newInterval
      ensures childUpdateRequests == old(childUpdateRequests)
                + (if old(interval) != newInterval && device.isChild then 1 else 0)
    {
      if interval != newInterval {
        interval := newInterval;
        if device.isChild {
          childUpdateRequests := childUpdateRequests + 1;
        }
      }
    }

    /** SetTimeout: restarts the timer only when the value changes. */
    method SetTimeout(newTimeout: uint16, device: Device, now: nat)
      modifies this`timeout, this`timerRunning, this`timerFireTime
      ensures timeout == newTimeout
      ensures old(timeout) == newTimeout ==> timerRunning == old(timerRunning) && timerFireTime == old(timerFireTime)
      ensures old(timeout) != newTimeout ==>
                (timerRunning <==> TimerShouldRun(newTimeout, device))
                && (timerRunning ==> timerFireTime == now + newTimeout * 1000)
    {
      if timeout != newTimeout {
        timeout := newTimeout;
        RestartTimer(device, now);
      }
    }

    /** UpdateOnReceive: only a secure frame from the parent, while running and a child, restarts the timer. */
    method UpdateOnReceive(fromParent: bool, isSecure: bool, device: Device, now: nat)
      modifies this`timerRunning, this`timerFireTime
      ensures old(timerRunning) && isSecure && device.isChild && fromParent ==>
                (timerRunning <==> TimerShouldRun(timeout, device))
                && (timerRunning ==> timerFireTime == now + timeout * 1000)
      ensures !(old(timerRunning) && isSecure && device.isChild && fromParent) ==>
                timerRunning == old(timerRunning) && timerFireTime == old(timerFireTime)
    {
      if timerRunning && isSecure && device.isChild && fromParent {
        RestartTimer(device, now);
      }
    }

    /** HandleTimer: a sleepy child counts the timeout and asks its parent for a Child Update. */
    method HandleTimer(device: Device, now: nat)
      modifies this`counter, this`childUpdateRequests, this`timerRunning, this`timerFireTime
      ensures counter == old(counter) + (if device.isChild && !device.rxOnWhenIdle then 1 else 0)
      ensures childUpdateRequests == old(childUpdateRequests) + (if device.isChild && !device.rxOnWhenIdle then 1 else 0)
      ensures timerRunning <==> TimerShouldRun(timeout, device)
      ensures timerRunning ==> timerFireTime == now + timeout * 1000
      ensures !timerRunning ==> timerFireTime == old(timerFireTime)
    {
      if device.isChild && !device.rxOnWhenIdle {
        counter := counter + 1;
        childUpdateRequests := childUpdateRequests + 1;
      }
      RestartTimer(device, now);
    }
  }
}
