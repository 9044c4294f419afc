/**
 * NetworkData::Publisher for on-mesh prefixes and external routes: each
 * published prefix entry watches how many equivalent entries other devices
 * already have in the leader's Network Data and adds its own entry when
 * there are too few, or removes it when there are too many, after a random
 * delay on a timer the entries share.
 */
module NetworkDataPublisher {
  import opened Common
  import opened NetworkData

  /** Publisher::Entry::State. */
  datatype State = NoEntry | ToAdd | Adding | Added | Removing

  datatype Requester = FromUser | FromRoutingManager

  datatype EntryType = OnMeshPrefix | ExternalRoute

  /** An IPv6 prefix: its bytes and its length in bits; two prefixes match when equal. */
  datatype Ip6Prefix = Ip6Prefix(bytes: seq<uint8>, length: uint8)

  /**
   * The build-time configuration: the random-delay bounds, the extra delay
   * before a preferred entry is removed, the desired number of entries per
   * type and how many prefix entries each requester may use.
   */
  datatype Config = Config(
    maxDelayToAdd: uint32,
    maxDelayToRemove: uint32,
    extraDelayToRemovePreferred: uint32,
    desiredNumOnMeshPrefix: nat,
    desiredNumExternalRoute: nat,
    maxUserPrefixEntries: nat,
    maxRoutingManagerPrefixEntries: nat)

  /** What the MLE layer tells the publisher about this device. */
  datatype MleState = MleState(attached: bool, rloc16: uint16, isRouterOrLeader: bool)

  datatype Event = EntryAddedEvent | EntryRemovedEvent

  /**
   * The calls a prefix entry makes outside itself: the local Network Data
   * edits, the notifier's server-data update and the publisher's callback.
   */
  datatype Effect =
    | LocalAdded(entryType: EntryType, prefix: Ip6Prefix, flags: uint16)
    | LocalRemoved(entryType: EntryType, prefix: Ip6Prefix)
    | ServerDataUpdated
    | Notified(event: Event, prefix: Ip6Prefix)

  /** The fields of a PrefixEntry. */
  datatype PrefixEntry = PrefixEntry(
    state: State,
    updateTime: uint32,
    entryType: EntryType,
    prefix: Ip6Prefix,
    flags: uint16,
    requester: Requester)

  predicate InUse(e: PrefixEntry)
  {
    e.state != NoEntry
  }

  /**
   * The outcome of one entry operation: the entry's new fields, the time
   * it asks the shared timer to fire at (FireAtIfEarlier), and its effects.
   */
  datatype Step = Step(entry: PrefixEntry, fireAt: Option<uint32>, effects: seq<Effect>)

  function Unchanged(e: PrefixEntry): Step
  {
    Step(e, None, [])
  }

  /** The shared timer after an entry asked it to fire at `fireAt`. */
  function Armed(timer: Timer, fireAt: Option<uint32>): (r: Timer)
    ensures fireAt.Some? ==> r.FiresAt? && (r.time == fireAt.value || SerialLess(r.time, fireAt.value))
    ensures fireAt.None? ==> r == timer
  {
    if fireAt.Some? then FireAtIfEarlier(timer, fireAt.value) else timer
  }

  // ---------------------------------------------------------------------
  // IsPreferred
  // ---------------------------------------------------------------------

  /**
   * Whether an entry from `rloc16` is preferred over ours: a router's
   * entry wins over an end device's, and between two of the same kind the
   * smaller RLOC16 wins.
   */
  predicate IsPreferred(rloc16: uint16, mle: MleState)
  {
    if mle.isRouterOrLeader == IsRouterRloc16(rloc16) then rloc16 < mle.rloc16 else IsRouterRloc16(rloc16)
  }

  /** A device whose MLE role agrees with its RLOC16. */
  function Device(rloc16: uint16): MleState
  {
    MleState(true, rloc16, IsRouterRloc16(rloc16))
  }

  /**
   * Between two distinct devices exactly one defers to the other, so they
   * never both keep (or both remove) their entries on this rule alone, and
   * no device prefers itself.
   */
  lemma PreferenceDecides(a: uint16, b: uint16)
    ensures a != b ==> (IsPreferred(a, Device(b)) <==> !IsPreferred(b, Device(a)))
    ensures !IsPreferred(a, Device(a))
  {
  }

  /** The preference is an ordering: it is transitive across three devices. */
  lemma PreferenceTransitive(a: uint16, b: uint16, c: uint16)
    requires IsPreferred(a, Device(b)) && IsPreferred(b, Device(c))
    ensures IsPreferred(a, Device(c))
  {
  }

  // ---------------------------------------------------------------------
  // Entry operations
  // ---------------------------------------------------------------------

  /**
   * UpdateState: with `numEntries` matching entries in the Network Data
   * (`numPreferred` of them preferred over ours) and `desired` wanted, an
   * entry ready to add starts adding when there are too few, an entry being
   * added stops when there are enough, an added entry starts removing when
   * there are too many, and an entry being removed stops when there are no
   * longer too many. `delay` is the random draw from [1, max delay), and a
   * removal waits `extra` more when fewer than `desired` entries are
   * preferred over ours.
   */
  function UpdateStep(e: PrefixEntry, numEntries: nat, numPreferred: nat, desired: nat,
                      now: uint32, delay: uint32, extra: uint32): Step
  {
    match e.state
    case NoEntry => Unchanged(e)
    case ToAdd =>
      if numEntries < desired then
        var t := Wrap32(now + delay);
        Step(e.(state := Adding, updateTime := t), Some(t), [])
      else Unchanged(e)
    case Adding =>
      if numEntries >= desired then Step(e.(state := ToAdd), None, []) else Unchanged(e)
    case Added =>
      if numEntries > desired then
        var t := Wrap32(now + delay);
        var t' := if numPreferred < desired then Wrap32(t + extra) else t;
        Step(e.(state := Removing, updateTime := t'), Some(t'), [])
      else Unchanged(e)
    case Removing =>
      if numEntries <= desired then Step(e.(state := Added), None, []) else Unchanged(e)
  }

  /**
   * PrefixEntry::Add: the local Network Data edit for the entry's type; when
   * it succeeds the entry is Added, the notifier learns the server data
   * changed and the callback reports the addition. A failed edit changes
   * nothing.
   */
  function AddStep(e: PrefixEntry, localResult: Error): Step
  {
    if localResult != NoError then Unchanged(e)
    else Step(e.(state := Added), None,
              [LocalAdded(e.entryType, e.prefix, e.flags), ServerDataUpdated, Notified(EntryAddedEvent, e.prefix)])
  }

  /**
   * PrefixEntry::Remove: an entry that is in the Network Data (Added or
   * Removing) is taken out and the removal reported; either way the entry
   * moves to `next`.
   */
  function RemoveStep(e: PrefixEntry, next: State): Step
  {
    var effects := if e.state == Added || e.state == Removing then
                     [LocalRemoved(e.entryType, e.prefix), ServerDataUpdated, Notified(EntryRemovedEvent, e.prefix)]
                   else [];
    Step(e.(state := next), None, effects)
  }

  /**
   * Entry::HandleTimer: only an entry that is Adding or Removing acts; once
   * its update time has come it adds, or removes itself back to ToAdd;
   * before that it re-arms the shared timer for its update time.
   */
  function TimerStep(e: PrefixEntry, now: uint32, localResult: Error): Step
  {
    if e.state != Adding && e.state != Removing then Unchanged(e)
    else if !SerialLess(now, e.updateTime) then
      if e.state == Adding then AddStep(e, localResult) else RemoveStep(e, ToAdd)
    else Step(e, Some(e.updateTime), [])
  }

  /** The entry describing the published prefix, ready to be added. */
  function Fresh(e: PrefixEntry, prefix: Ip6Prefix, flags: uint16, entryType: EntryType): PrefixEntry
  {
    e.(state := ToAdd, entryType := entryType, prefix := prefix, flags := flags)
  }

  /**
   * PrefixEntry::Publish before its final Process: an entry already in use
   * with the same type, flags and prefix stays as it is. Otherwise an entry
   * in use is removed; if it was in the Network Data with the same type it
   * is re-added at once under the new prefix and flags. An entry that ends
   * up not in use takes the new values and waits to be added.
   */
  function PublishStep(e: PrefixEntry, prefix: Ip6Prefix, flags: uint16, entryType: EntryType,
                       requester: Requester, localResult: Error): Step
  {
    var e1 := e.(requester := requester);
    if e1.state == NoEntry then Step(Fresh(e1, prefix, flags, entryType), None, [])
    else if e1.entryType == entryType && e1.flags == flags && e1.prefix == prefix then Unchanged(e1)
    else
      var replaced := ReplaceStep(e1, prefix, flags, entryType, localResult);
      if replaced.entry.state != NoEntry then replaced
      else Step(Fresh(replaced.entry, prefix, flags, entryType), None, replaced.effects)
  }

  /**
   * The part of Publish for a changed entry in use: take it out and, when
   * it was in the Network Data with the same type, add it back at once
   * under the new prefix and flags.
   */
  function ReplaceStep(e: PrefixEntry, prefix: Ip6Prefix, flags: uint16, entryType: EntryType, localResult: Error)
    : Step
  {
    var removed := RemoveStep(e, NoEntry);
    var readded := if e.entryType == entryType && (e.state == Added || e.state == Removing)
                   then AddStep(removed.entry.(prefix := prefix, flags := flags), localResult)
                   else Unchanged(removed.entry);
    Step(readded.entry, None, removed.effects + readded.effects)
  }

  /**
   * The state rule of UpdateState, both ways round for every state, and
   * nothing but the state and the update time changes.
   */
  lemma UpdateStateTransitions(e: PrefixEntry, n: nat, p: nat, d: nat, now: uint32, delay: uint32, extra: uint32)
    ensures var r := UpdateStep(e, n, p, d, now, delay, extra);
            r.effects == []
            && r.entry.(state := e.state, updateTime := e.updateTime) == e
            && (e.state == NoEntry ==> r.entry == e)
            && (e.state == ToAdd ==> (r.entry.state == Adding <==> n < d) && (r.entry.state == ToAdd <==> n >= d))
            && (e.state == Adding ==> (r.entry.state == ToAdd <==> n >= d) && (r.entry.state == Adding <==> n < d))
            && (e.state == Added ==> (r.entry.state == Removing <==> n > d) && (r.entry.state == Added <==> n <= d))
            && (e.state == Removing ==> (r.entry.state == Added <==> n <= d) && (r.entry.state == Removing <==> n > d))
            && (r.fireAt.Some? <==> r.entry.state != e.state && (r.entry.state == Adding || r.entry.state == Removing))
            && (r.fireAt.Some? ==> r.fireAt.value == r.entry.updateTime)
  {
  }

  /** With the counts unchanged, a second UpdateState does nothing: the first one settled the entry. */
  lemma UpdateStateSettles(e: PrefixEntry, n: nat, p: nat, d: nat, now: uint32, delay: uint32, extra: uint32,
                           later: uint32, delay2: uint32)
    ensures var r := UpdateStep(e, n, p, d, now, delay, extra);
            UpdateStep(r.entry, n, p, d, later, delay2, extra) == Unchanged(r.entry)
  {
  }

  /** A time `a + b` milliseconds after `now` on the wrapping 32-bit clock lies `a + b` ahead of it. */
  lemma AheadBy(now: uint32, a: nat, b: nat)
    requires a + b < 0x1_0000_0000
    ensures Wrap32(Wrap32(Wrap32(now + a) + b) - now) == a + b
  {
    Wrap32Near(now + a);
    Wrap32Near(Wrap32(now + a) + b);
    Wrap32Near(Wrap32(Wrap32(now + a) + b) - now);
  }

  /**
   * Adding waits the random delay; removing waits the random delay plus the
   * extra delay exactly when fewer than `desired` entries are preferred over
   * ours, so a preferred entry gives the others time to go first.
   */
  lemma UpdateStateDelays(e: PrefixEntry, n: nat, p: nat, d: nat, now: uint32, delay: uint32, extra: uint32)
    requires delay as int + extra as int < 0x1_0000_0000
    ensures var r := UpdateStep(e, n, p, d, now, delay, extra);
            (e.state == ToAdd && n < d ==> Wrap32(r.entry.updateTime - now) == delay)
            && (e.state == Added && n > d ==>
                  Wrap32(r.entry.updateTime - now) == delay + (if p < d then extra else 0))
  {
    if e.state == ToAdd && n < d {
      AheadBy(now, delay, 0);
      assert Wrap32(Wrap32(now + delay) + 0) == Wrap32(now + delay);
    } else if e.state == Added && n > d {
      AheadBy(now, delay, if p < d then extra else 0);
      assert Wrap32(Wrap32(now + delay) + 0) == Wrap32(now + delay);
    }
  }

  /**
   * With the random delay drawn from 1 to kMaxDelayToAdd (resp.
   * kMaxDelayToRemove), an entry starts adding within kMaxDelayToAdd and
   * starts removing within kMaxDelayToRemove, plus the extra delay when it
   * is preferred.
   */
  lemma UpdateStateDelaysWithin(config: Config, e: PrefixEntry, n: nat, p: nat, d: nat, now: uint32, delay: uint32)
    requires e.state == ToAdd ==> 1 <= delay <= config.maxDelayToAdd
    requires e.state == Added ==> 1 <= delay <= config.maxDelayToRemove
    requires config.maxDelayToRemove as int + config.extraDelayToRemovePreferred as int < 0x1_0000_0000
    ensures var r := UpdateStep(e, n, p, d, now, delay, config.extraDelayToRemovePreferred);
            (e.state == ToAdd && n < d ==> 1 <= Wrap32(r.entry.updateTime - now) <= config.maxDelayToAdd)
            && (e.state == Added && n > d ==>
                  1 <= Wrap32(r.entry.updateTime - now)
                    <= config.maxDelayToRemove + (if p < d then config.extraDelayToRemovePreferred else 0))
  {
    if e.state == ToAdd && n < d {
      AheadBy(now, delay, 0);
      assert Wrap32(Wrap32(now + delay) + 0) == Wrap32(now + delay);
    } else if e.state == Added {
      UpdateStateDelays(e, n, p, d, now, delay, config.extraDelayToRemovePreferred);
    }
  }

  /**
   * HandleTimer changes an entry only when it is Adding or Removing and its
   * update time has come: an entry being removed goes back to ToAdd, one
   * being added is Added if the local edit succeeds. Before its time an
   * entry only asks the timer to fire then.
   */
  lemma TimerActsWhenDue(e: PrefixEntry, now: uint32, localResult: Error)
    ensures var r := TimerStep(e, now, localResult);
            (r.entry != e || r.effects != [] ==>
               (e.state == Adding || e.state == Removing) && !SerialLess(now, e.updateTime))
            && (e.state == Removing && !SerialLess(now, e.updateTime) ==> r.entry.state == ToAdd)
            && (e.state == Adding && !SerialLess(now, e.updateTime) ==>
                  (r.entry.state == Added <==> localResult == NoError))
            && ((e.state == Adding || e.state == Removing) && SerialLess(now, e.updateTime) ==>
                  r.fireAt == Some(e.updateTime))
  {
  }

  /**
   * Remove always leaves the entry in the given state, and takes it out of
   * the Network Data (and reports so) only from Added or Removing.
   */
  lemma RemoveSetsState(e: PrefixEntry, next: State)
    ensures var r := RemoveStep(e, next);
            r.entry.state == next && r.entry.(state := e.state) == e
            && (r.effects != [] <==> e.state == Added || e.state == Removing)
  {
  }

  /**
   * After Publish the entry describes the published prefix, flags and type
   * and belongs to the requester; publishing what an entry in use already
   * holds changes nothing else.
   */
  lemma PublishDescribes(e: PrefixEntry, prefix: Ip6Prefix, flags: uint16, entryType: EntryType,
                         requester: Requester, localResult: Error)
    ensures var r := PublishStep(e, prefix, flags, entryType, requester, localResult);
            r.entry.prefix == prefix && r.entry.flags == flags && r.entry.entryType == entryType
            && r.entry.requester == requester && r.fireAt.None?
            && (InUse(e) && e.entryType == entryType && e.flags == flags && e.prefix == prefix ==>
                  r.entry == e.(requester := requester) && r.effects == [])
  {
    var e1 := e.(requester := requester);
    if e1.state != NoEntry && !(e1.entryType == entryType && e1.flags == flags && e1.prefix == prefix) {
      ReplaceFacts(e1, prefix, flags, entryType, localResult);
    }
  }

  /**
   * Any other publish leaves the entry waiting to be added, or Added when it
   * was in the Network Data with the same type and the immediate re-add
   * succeeded.
   */
  lemma PublishState(e: PrefixEntry, prefix: Ip6Prefix, flags: uint16, entryType: EntryType,
                     requester: Requester, localResult: Error)
    requires !(InUse(e) && e.entryType == entryType && e.flags == flags && e.prefix == prefix)
    ensures var r := PublishStep(e, prefix, flags, entryType, requester, localResult);
            (r.entry.state == ToAdd || r.entry.state == Added)
            && (r.entry.state == Added <==>
                  e.entryType == entryType && (e.state == Added || e.state == Removing) && localResult == NoError)
  {
    var e1 := e.(requester := requester);
    if e1.state != NoEntry {
      ReplaceFacts(e1, prefix, flags, entryType, localResult);
    }
  }

  /** Process leaves an entry alone while detached or not in use. */
  lemma ProcessNeedsAttached(e: PrefixEntry, config: Config, mle: MleState, routers: seq<BorderRouterEntry>,
                             routes: seq<HasRouteEntry>, now: uint32, delay: uint32)
    requires !mle.attached || !InUse(e)
    ensures ProcessStep(e, config, mle, routers, routes, now, delay) == Unchanged(e)
  {
  }

  /** What a replace leaves: Added under the new values after a successful re-add, otherwise not in use. */
  lemma ReplaceFacts(e: PrefixEntry, prefix: Ip6Prefix, flags: uint16, entryType: EntryType, localResult: Error)
    ensures var r := ReplaceStep(e, prefix, flags, entryType, localResult);
            r.entry.requester == e.requester && r.entry.entryType == e.entryType && r.fireAt.None?
            && (r.entry.state == Added || r.entry.state == NoEntry)
            && (r.entry.state == Added <==>
                  e.entryType == entryType && (e.state == Added || e.state == Removing) && localResult == NoError)
            && (r.entry.state == Added ==> r.entry.prefix == prefix && r.entry.flags == flags)
  {
  }

  // ---------------------------------------------------------------------
  // Counting the equivalent entries in the leader's Network Data
  // ---------------------------------------------------------------------

  /** A Border Router or Has Route entry as the counting sees it. */
  datatype Candidate = Candidate(rloc16: uint16, flagsWithoutPreference: nat, preference: int)

  /** A Border Router entry's flags: the preference in bits 15-14, the other flags below. */
  function OnMeshCandidate(rloc16: uint16, flags: uint16): Candidate
  {
    Candidate(rloc16, flags % 0x4000, RoutePreferenceFromValue(flags / 0x4000))
  }

  /** A Has Route entry's flags byte: the preference in bits 7-6, the other flags below. */
  function ExternalRouteCandidate(rloc16: uint16, flags: uint8): Candidate
  {
    Candidate(rloc16, flags % 0x40, RoutePreferenceFromValue(flags / 0x40))
  }

  /** Our own entry as a candidate; an external route keeps only its low flags byte. */
  function Own(e: PrefixEntry, mle: MleState): Candidate
  {
    if e.entryType == OnMeshPrefix then OnMeshCandidate(mle.rloc16, e.flags)
    else ExternalRouteCandidate(mle.rloc16, e.flags % 0x100)
  }

  function OnMeshCandidates(routers: seq<BorderRouterEntry>): (r: seq<Candidate>)
    ensures |r| == |routers|
    ensures forall k | 0 <= k < |r| :: r[k] == OnMeshCandidate(routers[k].rloc16, routers[k].flags)
  {
    seq(|routers|, k requires 0 <= k < |routers| => OnMeshCandidate(routers[k].rloc16, routers[k].flags))
  }

  function ExternalRouteCandidates(routes: seq<HasRouteEntry>): (r: seq<Candidate>)
    ensures |r| == |routes|
    ensures forall k | 0 <= k < |r| :: r[k] == ExternalRouteCandidate(routes[k].rloc16, routes[k].flags)
  {
    seq(|routes|, k requires 0 <= k < |routes| => ExternalRouteCandidate(routes[k].rloc16, routes[k].flags))
  }

  /** An entry counts when its flags match ours and its preference is at least ours. */
  predicate Counted(c: Candidate, ours: Candidate)
  {
    c.flagsWithoutPreference == ours.flagsWithoutPreference && c.preference >= ours.preference
  }

  /** A counted entry is preferred when its preference is higher, or IsPreferred says so. */
  predicate Preferred(c: Candidate, ours: Candidate, mle: MleState)
  {
    c.preference > ours.preference || IsPreferred(c.rloc16, mle)
  }

  /** The counted entries of `cs`. */
  function CountEntries(cs: seq<Candidate>, ours: Candidate): nat
  {
    if cs == [] then 0
    else CountEntries(cs[..|cs| - 1], ours) + (if Counted(cs[|cs| - 1], ours) then 1 else 0)
  }

  /** The counted entries of `cs` that are preferred over ours. */
  function CountPreferred(cs: seq<Candidate>, ours: Candidate, mle: MleState): nat
  {
    if cs == [] then 0
    else CountPreferred(cs[..|cs| - 1], ours, mle)
         + (if Counted(cs[|cs| - 1], ours) && Preferred(cs[|cs| - 1], ours, mle) then 1 else 0)
  }

  /**
   * CountOnMeshPrefixEntries and CountExternalRouteEntries: one pass over
   * the entries of the stable sub-TLV (none when the prefix or the sub-TLV
   * is missing), counting the matching entries and the preferred ones.
   */
  method CountMatchingEntries(cs: seq<Candidate>, ours: Candidate, mle: MleState)
    returns (numEntries: nat, numPreferred: nat)
    ensures numEntries == CountEntries(cs, ours)
    ensures numPreferred == CountPreferred(cs, ours, mle)
  {
    numEntries, numPreferred := 0, 0;
    var i := 0;
    while i < |cs|
      invariant i <= |cs|
      invariant numEntries == CountEntries(cs[..i], ours)
      invariant numPreferred == CountPreferred(cs[..i], ours, mle)
    {
      assert cs[..i + 1][..i] == cs[..i];
      var c := cs[i];
      if c.flagsWithoutPreference == ours.flagsWithoutPreference && c.preference >= ours.preference {
        numEntries := numEntries + 1;
        if c.preference > ours.preference || IsPreferred(c.rloc16, mle) {
          numPreferred := numPreferred + 1;
        }
      }
      i := i + 1;
    }
    assert cs[..i] == cs;
  }

  /** Preferred entries are among the counted ones, and no more are counted than exist. */
  lemma {:induction false} CountBounds(cs: seq<Candidate>, ours: Candidate, mle: MleState)
    ensures CountPreferred(cs, ours, mle) <= CountEntries(cs, ours) <= |cs|
  {
    if cs != [] {
      CountBounds(cs[..|cs| - 1], ours, mle);
    }
  }

  /** An entry at a lower preference than ours, or with other flags, changes neither count. */
  lemma LowerPreferenceNotCounted(cs: seq<Candidate>, c: Candidate, ours: Candidate, mle: MleState)
    requires c.preference < ours.preference || c.flagsWithoutPreference != ours.flagsWithoutPreference
    ensures CountEntries(cs + [c], ours) == CountEntries(cs, ours)
    ensures CountPreferred(cs + [c], ours, mle) == CountPreferred(cs, ours, mle)
  {
    assert (cs + [c])[..|cs|] == cs;
  }

  /**
   * PrefixEntry::Process: nothing while detached or not in use; otherwise
   * the counts from the leader's entries for our prefix (`routers` for an
   * on-mesh prefix, `routes` for an external route) drive UpdateState.
   */
  function ProcessStep(e: PrefixEntry, config: Config, mle: MleState, routers: seq<BorderRouterEntry>,
                       routes: seq<HasRouteEntry>, now: uint32, delay: uint32): Step
  {
    if !mle.attached || e.state == NoEntry then Unchanged(e)
    else
      var cs := if e.entryType == OnMeshPrefix then OnMeshCandidates(routers) else ExternalRouteCandidates(routes);
      var desired := if e.entryType == OnMeshPrefix then config.desiredNumOnMeshPrefix else config.desiredNumExternalRoute;
      UpdateStep(e, CountEntries(cs, Own(e, mle)), CountPreferred(cs, Own(e, mle), mle), desired,
                 now, delay, config.extraDelayToRemovePreferred)
  }

  // ---------------------------------------------------------------------
  // FindOrAllocatePrefixEntry
  // ---------------------------------------------------------------------

  /** The first in-use entry for `prefix`. */
  function MatchIndex(entries: seq<PrefixEntry>, prefix: Ip6Prefix): (m: Option<nat>)
    ensures m.Some? ==> m.value < |entries|
  {
    if entries == [] then None
    else
      var n := |entries| - 1;
      var m := MatchIndex(entries[..n], prefix);
      if m.None? && InUse(entries[n]) && entries[n].prefix == prefix then Some(n) else m
  }

  /** The first entry not in use. */
  function FreeIndex(entries: seq<PrefixEntry>): (f: Option<nat>)
    ensures f.Some? ==> f.value < |entries|
  {
    if entries == [] then None
    else
      var n := |entries| - 1;
      var f := FreeIndex(entries[..n]);
      if f.None? && !InUse(entries[n]) then Some(n) else f
  }

  /** The in-use entries the requester owns. */
  function CountOwned(entries: seq<PrefixEntry>, requester: Requester): nat
  {
    if entries == [] then 0
    else
      var n := |entries| - 1;
      CountOwned(entries[..n], requester) + (if InUse(entries[n]) && entries[n].requester == requester then 1 else 0)
  }

  function MaxEntries(config: Config, requester: Requester): nat
  {
    match requester
    case FromUser => config.maxUserPrefixEntries
    case FromRoutingManager => config.maxRoutingManagerPrefixEntries
  }

  /**
   * The entry FindOrAllocatePrefixEntry returns: the in-use entry for the
   * prefix if there is one, else the first free entry while the requester
   * owns fewer entries than its limit, else none.
   */
  function FindOrAllocate(entries: seq<PrefixEntry>, prefix: Ip6Prefix, requester: Requester, config: Config)
    : Option<nat>
  {
    var m := MatchIndex(entries, prefix);
    if m.Some? then m
    else if CountOwned(entries, requester) < MaxEntries(config, requester) then FreeIndex(entries)
    else None
  }

  /** MatchIndex finds the first in-use entry for the prefix, and only that. */
  lemma {:induction false} MatchIndexIsFirst(entries: seq<PrefixEntry>, prefix: Ip6Prefix)
    ensures var m := MatchIndex(entries, prefix);
            (m.Some? ==> m.value < |entries| && InUse(entries[m.value]) && entries[m.value].prefix == prefix
                         && forall j | 0 <= j < m.value :: !(InUse(entries[j]) && entries[j].prefix == prefix))
            && (m.None? ==> forall j | 0 <= j < |entries| :: !(InUse(entries[j]) && entries[j].prefix == prefix))
  {
    if entries != [] {
      var n := |entries| - 1;
      MatchIndexIsFirst(entries[..n], prefix);
      assert forall j | 0 <= j < n :: entries[..n][j] == entries[j];
    }
  }

  /** FreeIndex finds the first entry not in use, and only that. */
  lemma {:induction false} FreeIndexIsFirst(entries: seq<PrefixEntry>)
    ensures var f := FreeIndex(entries);
            (f.Some? ==> f.value < |entries| && !InUse(entries[f.value])
                         && forall j | 0 <= j < f.value :: InUse(entries[j]))
            && (f.None? ==> forall j | 0 <= j < |entries| :: InUse(entries[j]))
  {
    if entries != [] {
      var n := |entries| - 1;
      FreeIndexIsFirst(entries[..n]);
      assert forall j | 0 <= j < n :: entries[..n][j] == entries[j];
    }
  }

  /**
   * FindOrAllocatePrefixEntry never hands out an entry in use for another
   * prefix, and it allocates a free entry only under the requester's limit.
   */
  lemma FindOrAllocateSound(entries: seq<PrefixEntry>, prefix: Ip6Prefix, requester: Requester, config: Config)
    ensures var r := FindOrAllocate(entries, prefix, requester, config);
            r.Some? ==> r.value < |entries|
                        && (InUse(entries[r.value]) ==> entries[r.value].prefix == prefix)
                        && (!InUse(entries[r.value]) ==>
                              CountOwned(entries, requester) < MaxEntries(config, requester)
                              && forall j | 0 <= j < |entries| :: !(InUse(entries[j]) && entries[j].prefix == prefix))
    ensures FindOrAllocate(entries, prefix, requester, config).None? <==>
              (forall j | 0 <= j < |entries| :: !(InUse(entries[j]) && entries[j].prefix == prefix))
              && (CountOwned(entries, requester) >= MaxEntries(config, requester)
                  || forall j | 0 <= j < |entries| :: InUse(entries[j]))
  {
    MatchIndexIsFirst(entries, prefix);
    FreeIndexIsFirst(entries);
  }

  // ---------------------------------------------------------------------
  // HandleTimer over all entries
  // ---------------------------------------------------------------------

  datatype Sweep = Sweep(entries: seq<PrefixEntry>, timer: Timer, effects: seq<Effect>)

  /** Publisher::HandleTimer: every entry's HandleTimer in order, `results[k]` being entry k's local edit. */
  function TimerSweep(entries: seq<PrefixEntry>, timer: Timer, now: uint32, results: seq<Error>): (r: Sweep)
    requires |results| == |entries|
    ensures |r.entries| == |entries|
  {
    if entries == [] then Sweep([], timer, [])
    else
      var n := |entries| - 1;
      var s := TimerSweep(entries[..n], timer, now, results[..n]);
      var step := TimerStep(entries[n], now, results[n]);
      Sweep(s.entries + [step.entry], Armed(s.timer, step.fireAt), s.effects + step.effects)
  }

  /**
   * The sweep handles every entry on its own: entry k ends as its own
   * HandleTimer leaves it, so the order of the entries matters only to the
   * timer and the order of the effects.
   */
  lemma {:induction false} TimerSweepPointwise(entries: seq<PrefixEntry>, timer: Timer, now: uint32, results: seq<Error>)
    requires |results| == |entries|
    ensures forall k | 0 <= k < |entries| ::
              TimerSweep(entries, timer, now, results).entries[k] == TimerStep(entries[k], now, results[k]).entry
  {
    if entries != [] {
      var n := |entries| - 1;
      TimerSweepPointwise(entries[..n], timer, now, results[..n]);
      forall k | 0 <= k < n
        ensures TimerSweep(entries, timer, now, results).entries[k] == TimerStep(entries[k], now, results[k]).entry
      {
        assert entries[..n][k] == entries[k] && results[..n][k] == results[k];
      }
    }
  }

  /** Once any entry asked for the timer, the sweep leaves it running. */
  lemma {:induction false} TimerSweepArms(entries: seq<PrefixEntry>, timer: Timer, now: uint32, results: seq<Error>, k: nat)
    requires |results| == |entries| && k < |entries|
    requires TimerStep(entries[k], now, results[k]).fireAt.Some?
    ensures TimerSweep(entries, timer, now, results).timer.FiresAt?
  {
    var n := |entries| - 1;
    if k < n {
      assert entries[..n][k] == entries[k] && results[..n][k] == results[k];
      TimerSweepArms(entries[..n], timer, now, results[..n], k);
    }
  }

  // ---------------------------------------------------------------------
  // The publisher
  // ---------------------------------------------------------------------

  class Publisher {
    const config: Config
    /** mPrefixEntries, as values. */
    var entries: seq<PrefixEntry>
    /** The timer the entries share. */
    var timer: Timer
    /** Every effect so far, in order. */
    var effects: seq<Effect>

    /** Every entry starts unused. */
    constructor (config: Config, size: nat, blank: PrefixEntry)
      ensures this.config == config && timer == Stopped && effects == []
      ensures |entries| == size && forall k | 0 <= k < size :: entries[k] == blank.(state := NoEntry)
    {
      this.config := config;
      entries := seq(size, _ => blank.(state := NoEntry));
      timer := Stopped;
      effects := [];
    }

    /** Entry::SetState. */
    method SetState(i: nat, state: State)
      requires i < |entries|
      modifies this
      ensures entries == old(entries)[i := old(entries)[i].(state := state)]
      ensures timer == old(timer) && effects == old(effects)
    {
      if entries[i].state != state {
        entries := entries[i := entries[i].(state := state)];
      }
    }

    /** Entry::UpdateState on entry `i`. */
    method UpdateState(i: nat, numEntries: nat, numPreferred: nat, desired: nat, now: uint32, delay: uint32)
      requires i < |entries|
      modifies this
      ensures var step := UpdateStep(old(entries)[i], numEntries, numPreferred, desired, now, delay,
                                     config.extraDelayToRemovePreferred);
              entries == old(entries)[i := step.entry]
              && timer == Armed(old(timer), step.fireAt) && effects == old(effects)
    {
      var e := entries[i];
      match e.state {
        case NoEntry =>
        case ToAdd =>
          if numEntries < desired {
            var t := Wrap32(now + delay);
            entries := entries[i := e.(updateTime := t)];
            SetState(i, Adding);
            timer := FireAtIfEarlier(timer, t);
          }
        case Adding =>
          if numEntries >= desired {
            SetState(i, ToAdd);
          }
        case Added =>
          if numEntries > desired {
            var t := Wrap32(now + delay);
            if numPreferred < desired {
              t := Wrap32(t + config.extraDelayToRemovePreferred);
            }
            entries := entries[i := e.(updateTime := t)];
            SetState(i, Removing);
            timer := FireAtIfEarlier(timer, t);
          }
        case Removing =>
          if numEntries <= desired {
            SetState(i, Added);
          }
      }
    }

    /** PrefixEntry::Add on entry `i`; `localResult` is what the local Network Data edit returned. */
    method Add(i: nat, localResult: Error)
      requires i < |entries|
      modifies this
      ensures var step := AddStep(old(entries)[i], localResult);
              entries == old(entries)[i := step.entry] && timer == old(timer) && effects == old(effects) + step.effects
    {
      var e := entries[i];
      if localResult == NoError {
        effects := effects + [LocalAdded(e.entryType, e.prefix, e.flags), ServerDataUpdated];
        SetState(i, Added);
        effects := effects + [Notified(EntryAddedEvent, e.prefix)];
      }
    }

    /** PrefixEntry::Remove on entry `i`. */
    method Remove(i: nat, next: State)
      requires i < |entries|
      modifies this
      ensures var step := RemoveStep(old(entries)[i], next);
              entries == old(entries)[i := step.entry] && timer == old(timer) && effects == old(effects) + step.effects
    {
      var e := entries[i];
      if e.state == Added || e.state == Removing {
        effects := effects + [LocalRemoved(e.entryType, e.prefix), ServerDataUpdated, Notified(EntryRemovedEvent, e.prefix)];
      }
      SetState(i, next);
    }

    /** Entry::HandleTimer on entry `i`. */
    method HandleEntryTimer(i: nat, now: uint32, localResult: Error)
      requires i < |entries|
      modifies this
      ensures var step := TimerStep(old(entries)[i], now, localResult);
              entries == old(entries)[i := step.entry]
              && timer == Armed(old(timer), step.fireAt) && effects == old(effects) + step.effects
    {
      var e := entries[i];
      if e.state == Adding || e.state == Removing {
        if !SerialLess(now, e.updateTime) {
          if e.state == Adding {
            Add(i, localResult);
          } else {
            Remove(i, ToAdd);
          }
        } else {
          timer := FireAtIfEarlier(timer, e.updateTime);
        }
      }
    }

    /** PrefixEntry::Process on entry `i`. */
    method Process(i: nat, mle: MleState, routers: seq<BorderRouterEntry>, routes: seq<HasRouteEntry>,
                   now: uint32, delay: uint32)
      requires i < |entries|
      modifies this
      ensures var step := ProcessStep(old(entries)[i], config, mle, routers, routes, now, delay);
              entries == old(entries)[i := step.entry]
              && timer == Armed(old(timer), step.fireAt) && effects == old(effects) + step.effects
    {
      var e := entries[i];
      if mle.attached && e.state != NoEntry {
        var numEntries, numPreferred, desired;
        if e.entryType == OnMeshPrefix {
          numEntries, numPreferred := CountMatchingEntries(OnMeshCandidates(routers), Own(e, mle), mle);
          desired := config.desiredNumOnMeshPrefix;
        } else {
          numEntries, numPreferred := CountMatchingEntries(ExternalRouteCandidates(routes), Own(e, mle), mle);
          desired := config.desiredNumExternalRoute;
        }
        UpdateState(i, numEntries, numPreferred, desired, now, delay);
      }
    }

    /**
     * PrefixEntry::Publish on entry `i`, then Process. `localResult` is the
     * outcome of the local add should the entry be re-added at once.
     */
    method Publish(i: nat, prefix: Ip6Prefix, flags: uint16, entryType: EntryType, requester: Requester,
                   localResult: Error, mle: MleState, routers: seq<BorderRouterEntry>, routes: seq<HasRouteEntry>,
                   now: uint32, delay: uint32)
      requires i < |entries|
      modifies this
      ensures var published := PublishStep(old(entries)[i], prefix, flags, entryType, requester, localResult);
              var processed := ProcessStep(published.entry, config, mle, routers, routes, now, delay);
              entries == old(entries)[i := processed.entry]
              && timer == Armed(old(timer), processed.fireAt)
              && effects == old(effects) + published.effects + processed.effects
    {
      PublishEntry(i, prefix, flags, entryType, requester, localResult);
      Process(i, mle, routers, routes, now, delay);
    }

    /** PrefixEntry::Publish up to its final Process. */
    method PublishEntry(i: nat, prefix: Ip6Prefix, flags: uint16, entryType: EntryType, requester: Requester,
                        localResult: Error)
      requires i < |entries|
      modifies this
      ensures var step := PublishStep(old(entries)[i], prefix, flags, entryType, requester, localResult);
              entries == old(entries)[i := step.entry] && timer == old(timer) && effects == old(effects) + step.effects
    {
      ghost var entries0 := entries;
      ghost var step := PublishStep(entries0[i], prefix, flags, entryType, requester, localResult);
      var e := entries[i].(requester := requester);
      entries := entries[i := e];
      if e.state != NoEntry {
        if e.entryType == entryType && e.flags == flags && e.prefix == prefix {
          assert step == Unchanged(e);
          return;
        }
        ghost var replaced := ReplaceStep(e, prefix, flags, entryType, localResult);
        Replace(i, prefix, flags, entryType, localResult);
        if entries[i].state != NoEntry {
          assert step == replaced;
          return;
        }
        assert step == Step(Fresh(replaced.entry, prefix, flags, entryType), None, replaced.effects);
      } else {
        assert step == Step(Fresh(e, prefix, flags, entryType), None, []);
      }
      FreshEntry(i, prefix, flags, entryType);
    }

    /** The end of Publish for an entry not in use: take the new values and wait to be added. */
    method FreshEntry(i: nat, prefix: Ip6Prefix, flags: uint16, entryType: EntryType)
      requires i < |entries|
      modifies this
      ensures entries == old(entries)[i := Fresh(old(entries)[i], prefix, flags, entryType)]
      ensures timer == old(timer) && effects == old(effects)
    {
      entries := entries[i := entries[i].(entryType := entryType, prefix := prefix, flags := flags)];
      SetState(i, ToAdd);
    }

    /** The part of Publish that takes a changed entry out and, when it was in the Network Data, puts it back. */
    method Replace(i: nat, prefix: Ip6Prefix, flags: uint16, entryType: EntryType, localResult: Error)
      requires i < |entries|
      modifies this
      ensures var step := ReplaceStep(old(entries)[i], prefix, flags, entryType, localResult);
              entries == old(entries)[i := step.entry] && timer == old(timer) && effects == old(effects) + step.effects
    {
      var e := entries[i];
      Remove(i, NoEntry);
      if e.entryType == entryType && (e.state == Added || e.state == Removing) {
        entries := entries[i := entries[i].(prefix := prefix, flags := flags)];
        Add(i, localResult);
      }
    }

    /** Publisher::FindOrAllocatePrefixEntry. */
    method FindOrAllocatePrefixEntry(prefix: Ip6Prefix, requester: Requester) returns (r: Option<nat>)
      ensures r == FindOrAllocate(entries, prefix, requester, config)
    {
      var found: Option<nat> := None;
      var numEntries := 0;
      var i := 0;
      while i < |entries|
        invariant i <= |entries|
        invariant MatchIndex(entries[..i], prefix).None?
        invariant found == FreeIndex(entries[..i]) && numEntries == CountOwned(entries[..i], requester)
      {
        assert entries[..i + 1][..i] == entries[..i];
        var e := entries[i];
        if e.state != NoEntry {
          if e.requester == requester {
            numEntries := numEntries + 1;
          }
          if e.prefix == prefix {
            MatchFound(entries, prefix, i);
            return Some(i);
          }
        } else if found.None? {
          found := Some(i);
        }
        i := i + 1;
      }
      assert entries[..i] == entries;
      if numEntries >= MaxEntries(config, requester) {
        found := None;
      }
      return found;
    }

    /**
     * PublishOnMeshPrefix and ReplacePublishedExternalRoute: a valid stable
     * configuration is published on the entry for `lookup` (or a newly
     * allocated one); NoBufs when there is none to use.
     */
    method PublishPrefix(lookup: Ip6Prefix, prefix: Ip6Prefix, flags: uint16, entryType: EntryType,
                         configValid: bool, stable: bool, requester: Requester, localResult: Error,
                         mle: MleState, routers: seq<BorderRouterEntry>, routes: seq<HasRouteEntry>,
                         now: uint32, delay: uint32)
      returns (error: Error)
      modifies this
      ensures error != NoError ==> entries == old(entries) && timer == old(timer) && effects == old(effects)
      ensures !configValid || !stable ==> error == InvalidArgs
      ensures configValid && stable ==>
                var r := FindOrAllocate(old(entries), lookup, requester, config);
                (r.None? <==> error == NoBufs)
                && (error != NoBufs ==> error == NoError)
                && (r.Some? ==>
                      var published := PublishStep(old(entries)[r.value], prefix, flags, entryType, requester, localResult);
                      var processed := ProcessStep(published.entry, config, mle, routers, routes, now, delay);
                      entries == old(entries)[r.value := processed.entry]
                      && timer == Armed(old(timer), processed.fireAt)
                      && effects == old(effects) + published.effects + processed.effects)
    {
      if !configValid || !stable {
        return InvalidArgs;
      }
      FindOrAllocateSound(entries, lookup, requester, config);
      var r := FindOrAllocatePrefixEntry(lookup, requester);
      if r.None? {
        return NoBufs;
      }
      Publish(r.value, prefix, flags, entryType, requester, localResult, mle, routers, routes, now, delay);
      return NoError;
    }

    /** Publisher::FindMatchingPrefixEntry: a scan for the first in-use entry for the prefix. */
    method FindMatchingPrefixEntry(prefix: Ip6Prefix) returns (r: Option<nat>)
      ensures r == MatchIndex(entries, prefix)
    {
      var i := 0;
      while i < |entries|
        invariant i <= |entries| && MatchIndex(entries[..i], prefix).None?
      {
        assert entries[..i + 1][..i] == entries[..i];
        if InUse(entries[i]) && entries[i].prefix == prefix {
          MatchFound(entries, prefix, i);
          return Some(i);
        }
        i := i + 1;
      }
      assert entries[..i] == entries;
      return None;
    }

    /** Publisher::IsPrefixAdded: the entry for the prefix exists and is Added. */
    method IsPrefixAdded(prefix: Ip6Prefix) returns (isAdded: bool)
      ensures isAdded <==> exists k | 0 <= k < |entries| ::
                             InUse(entries[k]) && entries[k].prefix == prefix && entries[k].state == Added
                             && forall j | 0 <= j < k :: !(InUse(entries[j]) && entries[j].prefix == prefix)
    {
      MatchIndexIsFirst(entries, prefix);
      var m := FindMatchingPrefixEntry(prefix);
      isAdded := m.Some? && entries[m.value].state == Added;
    }

    /**
     * Publisher::UnpublishPrefix: NotFound, changing nothing, when no entry
     * is in use for the prefix; otherwise that entry is removed back to
     * NoEntry, leaving the Network Data if it was there.
     */
    method UnpublishPrefix(prefix: Ip6Prefix) returns (error: Error)
      modifies this
      ensures var m := MatchIndex(old(entries), prefix);
              (error == NotFound <==> m.None?) && (error == NoError <==> m.Some?)
              && (m.None? ==> entries == old(entries) && effects == old(effects))
              && (m.Some? ==> var step := RemoveStep(old(entries)[m.value], NoEntry);
                              entries == old(entries)[m.value := step.entry] && effects == old(effects) + step.effects
                              && !InUse(entries[m.value]))
      ensures timer == old(timer)
    {
      var m := FindMatchingPrefixEntry(prefix);
      if m.None? {
        return NotFound;
      }
      RemoveSetsState(entries[m.value], NoEntry);
      Remove(m.value, NoEntry);
      return NoError;
    }

    /** Publisher::HandleTimer: the fired timer is no longer running; each entry handles it in turn. */
    method HandleTimer(now: uint32, results: seq<Error>)
      requires |results| == |entries|
      modifies this
      ensures var s := TimerSweep(old(entries), Stopped, now, results);
              entries == s.entries && timer == s.timer && effects == old(effects) + s.effects
    {
      ghost var entries0, effects0 := entries, effects;
      timer := Stopped;
      SweepStart(entries0, now, results, effects0);
      var i, n := 0, |entries|;
      while i < n
        invariant n == |entries0| && SweepProgress(entries0, now, results, effects0, i, entries, timer, effects)
        decreases n - i
      {
        HandleNext(entries0, now, results, effects0, i);
        i := i + 1;
      }
      SweepDone(entries0, now, results, effects0, i, entries, timer, effects);
    }

    /** One step of HandleTimer: entry `i` handles the timer. */
    method HandleNext(ghost entries0: seq<PrefixEntry>, now: uint32, results: seq<Error>, ghost effects0: seq<Effect>,
                      i: nat)
      requires |results| == |entries0| && i < |entries0|
      requires SweepProgress(entries0, now, results, effects0, i, entries, timer, effects)
      modifies this
      ensures SweepProgress(entries0, now, results, effects0, i + 1, entries, timer, effects)
    {
      SweepAdvance(entries0, now, results, effects0, i, entries, timer, effects);
      HandleEntryTimer(i, now, results[i]);
    }
  }

  /** Once a prefix of the entries holds a match, the whole table's first match is that one. */
  lemma {:induction false} MatchIndexExtends(entries: seq<PrefixEntry>, prefix: Ip6Prefix, k: nat)
    requires k <= |entries| && MatchIndex(entries[..k], prefix).Some?
    ensures MatchIndex(entries, prefix) == MatchIndex(entries[..k], prefix)
    decreases |entries| - k
  {
    if k < |entries| {
      var n := |entries| - 1;
      assert entries[..n][..k] == entries[..k];
      MatchIndexExtends(entries[..n], prefix, k);
    } else {
      assert entries[..k] == entries;
    }
  }

  /** The loop in FindOrAllocatePrefixEntry stops at the first match. */
  lemma MatchFound(entries: seq<PrefixEntry>, prefix: Ip6Prefix, i: nat)
    requires i < |entries| && MatchIndex(entries[..i], prefix).None?
    requires InUse(entries[i]) && entries[i].prefix == prefix
    ensures MatchIndex(entries, prefix) == Some(i)
  {
    assert entries[..i + 1][..i] == entries[..i];
    MatchIndexExtends(entries, prefix, i + 1);
  }

  /** HandleTimer's loop state: the first `i` entries handled, the rest untouched. */
  ghost predicate SweepProgress(entries0: seq<PrefixEntry>, now: uint32, results: seq<Error>, effects0: seq<Effect>,
                                i: nat, entries: seq<PrefixEntry>, timer: Timer, effects: seq<Effect>)
    requires |results| == |entries0|
  {
    i <= |entries0|
    && var s := TimerSweep(entries0[..i], Stopped, now, results[..i]);
    entries == s.entries + entries0[i..] && timer == s.timer && effects == effects0 + s.effects
  }

  lemma SweepStart(entries0: seq<PrefixEntry>, now: uint32, results: seq<Error>, effects0: seq<Effect>)
    requires |results| == |entries0|
    ensures SweepProgress(entries0, now, results, effects0, 0, entries0, Stopped, effects0)
  {
    assert entries0[..0] == [] && results[..0] == [] && entries0[0..] == entries0;
  }

  lemma SweepAdvance(entries0: seq<PrefixEntry>, now: uint32, results: seq<Error>, effects0: seq<Effect>,
                     i: nat, entries: seq<PrefixEntry>, timer: Timer, effects: seq<Effect>)
    requires |results| == |entries0| && i < |entries0|
    requires SweepProgress(entries0, now, results, effects0, i, entries, timer, effects)
    ensures i < |entries| && entries[i] == entries0[i]
    ensures var step := TimerStep(entries0[i], now, results[i]);
            SweepProgress(entries0, now, results, effects0, i + 1, entries[i := step.entry],
                          Armed(timer, step.fireAt), effects + step.effects)
  {
    var s := TimerSweep(entries0[..i], Stopped, now, results[..i]);
    var step := TimerStep(entries0[i], now, results[i]);
    assert entries0[..i + 1][..i] == entries0[..i] && results[..i + 1][..i] == results[..i];
    assert entries[i := step.entry] == s.entries + [step.entry] + entries0[i + 1..];
  }

  lemma SweepDone(entries0: seq<PrefixEntry>, now: uint32, results: seq<Error>, effects0: seq<Effect>,
                  i: nat, entries: seq<PrefixEntry>, timer: Timer, effects: seq<Effect>)
    requires |results| == |entries0| && i >= |entries0|
    requires SweepProgress(entries0, now, results, effects0, i, entries, timer, effects)
    ensures var s := TimerSweep(entries0, Stopped, now, results);
            entries == s.entries && timer == s.timer && effects == effects0 + s.effects
  {
    assert entries0[..i] == entries0 && results[..i] == results && entries0[i..] == [];
  }
}
