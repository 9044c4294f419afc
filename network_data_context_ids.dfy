/**
 * Leader::ContextIds: the 6LoWPAN context IDs a leader gives to on-mesh
 * prefixes. Each ID is unallocated, in use, or waiting out the reuse delay
 * after its last border router left. The state of an ID is a TimeMilli
 * value: 0 marks it unallocated, 1 marks it in use, and any other value is
 * the time it becomes unallocated again, so SetRemoveTime steps a remove
 * time off the two markers.
 *
 * The leader's timer, which ScheduleToRemove moves earlier and the leader's
 * HandleTimer rearms, is kept here beside the remove times.
 */
module NetworkDataContextIds {
  import opened Common

  const MinId: nat := 1
  const MaxId: nat := 15
  const IdCount: nat := MaxId - MinId + 1
  /** The remove-time marker of an unallocated ID. */
  const Unallocated: uint32 := 0
  /** The remove-time marker of an ID in use. */
  const InUse: uint32 := 1
  /** kReuseDelay, in seconds. */
  const ReuseDelay: uint32 := 300

  predicate IsContextId(id: nat)
  {
    MinId <= id <= MaxId
  }

  /** A remove time that is neither marker. */
  predicate IsRemoveTime(t: uint32)
  {
    t != Unallocated && t != InUse
  }

  /** The time SetRemoveTime stores: the first value from `time` on that is neither marker. */
  function SkipMarkers(time: uint32): (t: uint32)
    ensures IsRemoveTime(t)
    ensures IsRemoveTime(time) ==> t == time
  {
    if time == Unallocated || time == InUse then InUse + 1 else time
  }

  /** The clock time, `reuseDelay` seconds after `now`, at which a released ID is freed. */
  function ReleaseTime(now: uint32, reuseDelay: uint32): uint32
  {
    SkipMarkers(Wrap32(now + Wrap32(reuseDelay * 1000)))
  }

  /** Whether the state of `id` in `removeTimes` is the unallocated marker. */
  predicate IdUnallocated(removeTimes: seq<uint32>, id: nat)
    requires |removeTimes| == IdCount && IsContextId(id)
  {
    removeTimes[id - MinId] == Unallocated
  }

  /** The lowest unallocated ID at or above `from`. */
  function FirstUnallocatedFrom(removeTimes: seq<uint32>, from: nat): (r: Option<nat>)
    requires |removeTimes| == IdCount && MinId <= from
    ensures r.Some? ==> from <= r.value <= MaxId && IdUnallocated(removeTimes, r.value)
    ensures r.Some? ==> forall id: nat | from <= id < r.value :: !IdUnallocated(removeTimes, id)
    ensures r.None? ==> forall id: nat | from <= id <= MaxId :: !IdUnallocated(removeTimes, id)
    decreases MaxId + 1 - from
  {
    if from > MaxId then None
    else if removeTimes[from - MinId] == Unallocated then Some(from)
    else FirstUnallocatedFrom(removeTimes, from + 1)
  }

  /** The ID GetUnallocatedId hands out, if any. */
  function FirstUnallocated(removeTimes: seq<uint32>): Option<nat>
    requires |removeTimes| == IdCount
  {
    FirstUnallocatedFrom(removeTimes, MinId)
  }

  /**
   * The remove times and timer after ScheduleToRemove: only an ID in use is
   * scheduled, at its release time, and the timer is moved to it if earlier.
   */
  function AfterScheduleToRemove(removeTimes: seq<uint32>, timer: Timer, id: nat, now: uint32, reuseDelay: uint32)
    : (r: (seq<uint32>, Timer))
    requires |removeTimes| == IdCount && IsContextId(id)
    ensures |r.0| == IdCount
  {
    if removeTimes[id - MinId] != InUse then (removeTimes, timer)
    else
      var t := ReleaseTime(now, reuseDelay);
      (removeTimes[id - MinId := t], FireAtIfEarlier(timer, t))
  }

  /**
   * Scheduling releases exactly an ID that was in use: afterwards it is
   * waiting, with a remove time that is no marker, and the timer fires no
   * later than that time; every other ID keeps its state.
   */
  lemma ScheduleToRemoveReleases(removeTimes: seq<uint32>, timer: Timer, id: nat, now: uint32, reuseDelay: uint32)
    requires |removeTimes| == IdCount && IsContextId(id)
    ensures var r := AfterScheduleToRemove(removeTimes, timer, id, now, reuseDelay);
            forall other: nat | IsContextId(other) && other != id :: r.0[other - MinId] == removeTimes[other - MinId]
    ensures var r := AfterScheduleToRemove(removeTimes, timer, id, now, reuseDelay);
            removeTimes[id - MinId] == InUse ==>
              IsRemoveTime(r.0[id - MinId]) && r.1.FiresAt?
              && (r.1.time == r.0[id - MinId] || SerialLess(r.1.time, r.0[id - MinId]))
    ensures var r := AfterScheduleToRemove(removeTimes, timer, id, now, reuseDelay);
            removeTimes[id - MinId] != InUse ==> r == (removeTimes, timer)
  {
  }

  /**
   * What the leader does to the context ID of a prefix after removing
   * border routers from it: nothing when the prefix has no Context
   * sub-TLV, MarkAsInUse while a border router remains, ScheduleToRemove
   * once none does.
   */
  datatype ContextAction = NoContext | KeepInUse(id: nat) | Release(id: nat)

  predicate ActionInRange(action: ContextAction)
  {
    action.NoContext? || IsContextId(action.id)
  }

  predicate ActionsInRange(actions: seq<ContextAction>)
  {
    forall k | 0 <= k < |actions| :: ActionInRange(actions[k])
  }

  function ApplyContextAction(removeTimes: seq<uint32>, timer: Timer, action: ContextAction, now: uint32, reuseDelay: uint32)
    : (r: (seq<uint32>, Timer))
    requires |removeTimes| == IdCount && ActionInRange(action)
    ensures |r.0| == IdCount
  {
    match action
    case NoContext => (removeTimes, timer)
    case KeepInUse(id) => (removeTimes[id - MinId := InUse], timer)
    case Release(id) => AfterScheduleToRemove(removeTimes, timer, id, now, reuseDelay)
  }

  /** The actions applied in order. */
  function ApplyContextActions(removeTimes: seq<uint32>, timer: Timer, actions: seq<ContextAction>, now: uint32, reuseDelay: uint32)
    : (r: (seq<uint32>, Timer))
    requires |removeTimes| == IdCount && ActionsInRange(actions)
    ensures |r.0| == IdCount
  {
    if actions == [] then (removeTimes, timer)
    else
      var n := |actions| - 1;
      var before := ApplyContextActions(removeTimes, timer, actions[..n], now, reuseDelay);
      ApplyContextAction(before.0, before.1, actions[n], now, reuseDelay)
  }

  /** Applying one more action extends the fold by that action. */
  lemma ApplyContextActionsAppend(removeTimes: seq<uint32>, timer: Timer, actions: seq<ContextAction>,
                                  more: seq<ContextAction>, now: uint32, reuseDelay: uint32)
    requires |removeTimes| == IdCount && |more| <= 1
    requires ActionsInRange(actions) && ActionsInRange(more)
    ensures ActionsInRange(actions + more)
    ensures var before := ApplyContextActions(removeTimes, timer, actions, now, reuseDelay);
            ApplyContextActions(removeTimes, timer, actions + more, now, reuseDelay)
            == ApplyContextActions(before.0, before.1, more, now, reuseDelay)
  {
    if more == [] {
      assert actions + more == actions;
    } else {
      assert (actions + more)[..|actions|] == actions;
      assert more[..0] == [];
    }
  }

  // ---------------------------------------------------------------------
  // The timer sweep
  // ---------------------------------------------------------------------

  /** An ID waiting out its reuse delay whose remove time has come by `now`. */
  predicate Expired(removeTimes: seq<uint32>, now: uint32, id: nat)
    requires |removeTimes| == IdCount && IsContextId(id)
  {
    IsRemoveTime(removeTimes[id - MinId]) && !SerialLess(now, removeTimes[id - MinId])
  }

  /** An ID still waiting out its reuse delay at `now`. */
  predicate Waiting(removeTimes: seq<uint32>, now: uint32, id: nat)
    requires |removeTimes| == IdCount && IsContextId(id)
  {
    IsRemoveTime(removeTimes[id - MinId]) && SerialLess(now, removeTimes[id - MinId])
  }

  /** The expired IDs below `upto`, in the ascending order the sweep visits them. */
  function ExpiredBelow(removeTimes: seq<uint32>, now: uint32, upto: nat): (ids: seq<nat>)
    requires |removeTimes| == IdCount && MinId <= upto <= MaxId + 1
    decreases upto
  {
    if upto == MinId then []
    else ExpiredBelow(removeTimes, now, upto - 1) + (if Expired(removeTimes, now, upto - 1) then [upto - 1] else [])
  }

  /** The remove times once the sweep has passed every ID below `upto`: each expired one is unallocated. */
  function SweptBelow(removeTimes: seq<uint32>, now: uint32, upto: nat): (r: seq<uint32>)
    requires |removeTimes| == IdCount
    ensures |r| == IdCount
  {
    seq(IdCount, k requires 0 <= k < IdCount =>
      if k + MinId < upto && Expired(removeTimes, now, k + MinId) then Unallocated else removeTimes[k])
  }

  lemma ExpiredBelowStep(removeTimes: seq<uint32>, now: uint32, id: nat)
    requires |removeTimes| == IdCount && IsContextId(id)
    ensures ExpiredBelow(removeTimes, now, id + 1)
            == ExpiredBelow(removeTimes, now, id) + if Expired(removeTimes, now, id) then [id] else []
  {
  }

  /** Whether an ID is expired or waiting depends only on its own remove time. */
  lemma SameState(a: seq<uint32>, b: seq<uint32>, now: uint32, id: nat)
    requires |a| == IdCount && |b| == IdCount && IsContextId(id) && a[id - MinId] == b[id - MinId]
    ensures Expired(a, now, id) == Expired(b, now, id) && Waiting(a, now, id) == Waiting(b, now, id)
  {
  }

  /** One more ID swept: it becomes unallocated when expired, and nothing else changes. */
  lemma SweptStep(removeTimes: seq<uint32>, now: uint32, id: nat)
    requires |removeTimes| == IdCount && IsContextId(id)
    ensures SweptBelow(removeTimes, now, id)[id - MinId] == removeTimes[id - MinId]
    ensures SweptBelow(removeTimes, now, id + 1)
            == if Expired(removeTimes, now, id) then SweptBelow(removeTimes, now, id)[id - MinId := Unallocated]
               else SweptBelow(removeTimes, now, id)
  {
  }

  /**
   * NextFireTime::UpdateIfEarlier, for a time after now: the first time
   * offered is kept, and a later offer replaces it only when it comes
   * first.
   */
  function EarliestOf(next: Option<uint32>, time: uint32): (r: Option<uint32>)
  {
    if next.None? || SerialLess(time, next.value) then Some(time) else next
  }

  /** The earliest remove time among the waiting IDs below `upto`, as the sweep finds it. */
  function NextRemoveTime(removeTimes: seq<uint32>, now: uint32, upto: nat): (r: Option<uint32>)
    requires |removeTimes| == IdCount && MinId <= upto <= MaxId + 1
    decreases upto
  {
    if upto == MinId then None
    else
      var next := NextRemoveTime(removeTimes, now, upto - 1);
      if Waiting(removeTimes, now, upto - 1) then EarliestOf(next, removeTimes[upto - 1 - MinId]) else next
  }

  /** TimerMilli::FireAt(NextFireTime): stopped when no time was offered. */
  function TimerFor(next: Option<uint32>): (r: Timer)
    ensures r.FiresAt? <==> next.Some?
    ensures next.Some? ==> r.time == next.value
  {
    if next.None? then Stopped else FiresAt(next.value)
  }

  /** The distance of a time ahead of `now` on the 32-bit clock. */
  function Ahead(now: uint32, t: uint32): int
  {
    Wrap32(t - now)
  }

  /**
   * Among the times after `now` (less than half the clock ahead), the
   * serial order is the order of the distances ahead of now.
   */
  lemma WindowOrder(now: uint32, a: uint32, b: uint32)
    requires SerialLess(now, a) && SerialLess(now, b)
    ensures 0 < Ahead(now, a) <= HalfSpace && 0 < Ahead(now, b) <= HalfSpace
    ensures SerialLess(a, b) <==> Ahead(now, a) < Ahead(now, b)
  {
    assert Ahead(now, a) == 0x1_0000_0000 - Wrap32(now - a);
    assert Ahead(now, b) == 0x1_0000_0000 - Wrap32(now - b);
    if Ahead(now, a) < Ahead(now, b) {
      assert Wrap32(a - b) == 0x1_0000_0000 + Ahead(now, a) - Ahead(now, b);
    } else {
      assert Wrap32(a - b) == Ahead(now, a) - Ahead(now, b);
    }
  }

  /**
   * The timer the sweep rearms fires at the earliest waiting remove time:
   * there is one exactly when some ID below `upto` is waiting, it belongs
   * to a waiting ID, and no waiting ID's time comes before it.
   */
  lemma {:induction false} NextRemoveTimeIsEarliest(removeTimes: seq<uint32>, now: uint32, upto: nat)
    requires |removeTimes| == IdCount && MinId <= upto <= MaxId + 1
    ensures var r := NextRemoveTime(removeTimes, now, upto);
            (r.Some? <==> exists id: nat | MinId <= id < upto :: Waiting(removeTimes, now, id))
            && (r.Some? ==> SerialLess(now, r.value)
                            && (exists id: nat | MinId <= id < upto :: Waiting(removeTimes, now, id)
                                                                     && removeTimes[id - MinId] == r.value))
            && (r.Some? ==> forall id: nat | MinId <= id < upto && Waiting(removeTimes, now, id) ::
                              Ahead(now, r.value) <= Ahead(now, removeTimes[id - MinId]))
    decreases upto
  {
    if upto > MinId {
      var last := upto - 1;
      var prev := NextRemoveTime(removeTimes, now, last);
      NextRemoveTimeIsEarliest(removeTimes, now, last);
      if Waiting(removeTimes, now, last) && prev.Some? {
        WindowOrder(now, removeTimes[last - MinId], prev.value);
      }
    }
  }

  /**
   * After the sweep no ID is left expired: the expired ones are
   * unallocated, and every other ID keeps its state.
   */
  lemma SweepFreesExpired(removeTimes: seq<uint32>, now: uint32)
    requires |removeTimes| == IdCount
    ensures var swept := SweptBelow(removeTimes, now, MaxId + 1);
            forall id: nat | IsContextId(id) ::
              !Expired(swept, now, id)
              && swept[id - MinId] == (if Expired(removeTimes, now, id) then Unallocated else removeTimes[id - MinId])
  {
    var swept := SweptBelow(removeTimes, now, MaxId + 1);
    forall id: nat | IsContextId(id)
      ensures !Expired(swept, now, id)
      ensures swept[id - MinId] == (if Expired(removeTimes, now, id) then Unallocated else removeTimes[id - MinId])
    {
      assert (id - MinId) + MinId == id;
      if Expired(removeTimes, now, id) {
        assert swept[id - MinId] == Unallocated;
      } else {
        assert swept[id - MinId] == removeTimes[id - MinId];
      }
    }
  }

  /** Every expired ID is in the list the sweep hands to RemoveContext, and only those. */
  lemma {:induction false} ExpiredBelowComplete(removeTimes: seq<uint32>, now: uint32, upto: nat, id: nat)
    requires |removeTimes| == IdCount && MinId <= upto <= MaxId + 1 && IsContextId(id)
    ensures id in ExpiredBelow(removeTimes, now, upto) <==> id < upto && Expired(removeTimes, now, id)
    decreases upto
  {
    if upto > MinId {
      ExpiredBelowComplete(removeTimes, now, upto - 1, id);
    }
  }

  class ContextIds {
    /** mRemoveTimes, indexed by ID - MinId. */
    var removeTimes: seq<uint32>
    var timer: Timer
    var reuseDelay: uint32

    ghost predicate Valid()
      reads this
    {
      |removeTimes| == IdCount
    }

    /** The constructor sets the reuse delay; the leader's Reset then clears every ID. */
    constructor ()
      ensures Valid() && reuseDelay == ReuseDelay && timer == Stopped
      ensures forall id: nat | IsContextId(id) :: IsUnallocated(id)
    {
      removeTimes := seq(IdCount, _ => Unallocated);
      timer := Stopped;
      reuseDelay := ReuseDelay;
    }

    predicate IsUnallocated(id: nat)
      reads this
      requires Valid() && IsContextId(id)
    {
      IdUnallocated(removeTimes, id)
    }

    predicate IsInUse(id: nat)
      reads this
      requires Valid() && IsContextId(id)
    {
      removeTimes[id - MinId] == InUse
    }

    method MarkAsInUse(id: nat)
      requires Valid() && IsContextId(id)
      modifies this`removeTimes
      ensures Valid() && removeTimes == old(removeTimes)[id - MinId := InUse]
      ensures IsInUse(id)
    {
      removeTimes := removeTimes[id - MinId := InUse];
    }

    method MarkAsUnallocated(id: nat)
      requires Valid() && IsContextId(id)
      modifies this`removeTimes
      ensures Valid() && removeTimes == old(removeTimes)[id - MinId := Unallocated]
      ensures IsUnallocated(id)
    {
      removeTimes := removeTimes[id - MinId := Unallocated];
    }

    /** Clear: every ID becomes unallocated. */
    method Clear()
      requires Valid()
      modifies this`removeTimes
      ensures Valid() && forall id: nat | IsContextId(id) :: IsUnallocated(id)
    {
      var id := MinId;
      while id <= MaxId
        invariant MinId <= id <= MaxId + 1 && Valid()
        invariant forall i | 0 <= i < id - MinId :: removeTimes[i] == Unallocated
      {
        MarkAsUnallocated(id);
        id := id + 1;
      }
    }

    /** GetUnallocatedId: the lowest unallocated ID, or NotFound when all fifteen are taken. */
    method GetUnallocatedId() returns (error: Error, id: nat)
      requires Valid()
      ensures error == NoError || error == NotFound
      ensures error == NoError ==> IsContextId(id) && IsUnallocated(id)
                                   && forall k: nat | MinId <= k < id :: !IsUnallocated(k)
      ensures error == NotFound <==> forall k: nat | IsContextId(k) :: !IsUnallocated(k)
      ensures error == NoError <==> FirstUnallocated(removeTimes) == Some(id)
    {
      error, id := NotFound, 0;
      var k := MinId;
      while k <= MaxId
        invariant MinId <= k <= MaxId + 1
        invariant FirstUnallocated(removeTimes) == FirstUnallocatedFrom(removeTimes, k)
      {
        if removeTimes[k - MinId] == Unallocated {
          return NoError, k;
        }
        k := k + 1;
      }
    }

    /** SetRemoveTime: store the time, stepped forward off the two markers. */
    method SetRemoveTime(id: nat, time: uint32)
      requires Valid() && IsContextId(id)
      modifies this`removeTimes
      ensures Valid() && removeTimes == old(removeTimes)[id - MinId := SkipMarkers(time)]
    {
      var t := time;
      while t == Unallocated || t == InUse
        invariant t == time || (time <= InUse && time < t <= InUse + 1)
        decreases InUse + 1 - t
      {
        t := t + 1;
      }
      removeTimes := removeTimes[id - MinId := t];
    }

    /** ScheduleToRemove: release an ID in use after the reuse delay; other states are left alone. */
    method ScheduleToRemove(id: nat, now: uint32)
      requires Valid() && IsContextId(id)
      modifies this`removeTimes, this`timer
      ensures Valid()
      ensures (removeTimes, timer) == AfterScheduleToRemove(old(removeTimes), old(timer), id, now, reuseDelay)
    {
      if IsInUse(id) {
        SetRemoveTime(id, Wrap32(now + Wrap32(reuseDelay * 1000)));
        timer := FireAtIfEarlier(timer, removeTimes[id - MinId]);
      }
    }
  }
}
