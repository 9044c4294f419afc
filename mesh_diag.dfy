/**
 * Mesh diagnostics (Utils::MeshDiag): topology discovery, which sends a
 * Diagnostic Get to every allocated router and collects one answer per
 * router, and the one-router queries (child table, children's IPv6
 * addresses, router neighbour table), which accept answers only in order
 * of their answer index. One operation runs at a time.
 */
module MeshDiag {
  import opened Common

  /** Mle::kMaxRouterId: router IDs are 0..62. */
  const MaxRouterId: nat := 62
  const RouterIdCount: nat := MaxRouterId + 1
  /** kVersionUnknown, reported when an answer carries no Version TLV. */
  const VersionUnknown: uint16 := 0xffff

  datatype State =
    | StateIdle
    | StateDiscoverTopology
    | StateQueryChildTable
    | StateQueryChildrenIp6Addrs
    | StateQueryRouterNeighborTable

  predicate IsQuery(s: State)
  {
    s == StateQueryChildTable || s == StateQueryChildrenIp6Addrs || s == StateQueryRouterNeighborTable
  }

  /** A callback invocation: which operation's callback, and with what error. */
  datatype Report = Report(operation: State, error: Error)

  /** Clamp(aTimeout, kMinResponseTimeout, kMaxResponseTimeout). */
  function Clamp(value: uint32, min: uint32, max: uint32): (r: uint32)
    requires min <= max
    ensures min <= r <= max
    ensures min <= value <= max ==> r == value
    ensures value < min ==> r == min
    ensures value > max ==> r == max
  {
    if value < min then min else if value > max then max else value
  }

  /**
   * The commands DiscoverTopology sends to router IDs below n, in increasing
   * ID order, and the error of the first send that fails (None when all go out).
   */
  function DiscoverSends(routerIds: set<nat>, sendResults: seq<Error>, n: nat): (seq<nat>, Error)
    requires n <= |sendResults| == RouterIdCount
  {
    if n == 0 then ([], NoError)
    else
      var (sent, error) := DiscoverSends(routerIds, sendResults, n - 1);
      if error != NoError || n - 1 !in routerIds then (sent, error)
      else if sendResults[n - 1] == NoError then (sent + [n - 1], NoError)
      else (sent, sendResults[n - 1])
  }

  /** Whether a sequence of router IDs is strictly increasing. */
  predicate Increasing(ids: seq<nat>)
  {
    forall i, j | 0 <= i < j < |ids| :: ids[i] < ids[j]
  }

  /**
   * When every send succeeds, discovery queries exactly the allocated routers
   * below n, each once, in increasing order; a failure is the first failed
   * send to an allocated router.
   */
  lemma {:induction false} DiscoverSendsAll(routerIds: set<nat>, sendResults: seq<Error>, n: nat)
    requires n <= |sendResults| == RouterIdCount
    ensures var (sent, error) := DiscoverSends(routerIds, sendResults, n);
            Increasing(sent)
            && (forall k | k in sent :: k < n && k in routerIds && sendResults[k] == NoError)
            && (error == NoError ==> forall k | k < n && k in routerIds :: k in sent)
            && (error != NoError ==> exists k | k < n && k in routerIds :: sendResults[k] == error)
  {
    if n > 0 {
      DiscoverSendsAll(routerIds, sendResults, n - 1);
      var (sent, error) := DiscoverSends(routerIds, sendResults, n - 1);
      if error == NoError && n - 1 in routerIds && sendResults[n - 1] == NoError {
        var extended := sent + [n - 1];
        forall i, j | 0 <= i < j < |extended|
          ensures extended[i] < extended[j]
        {
          if j < |sent| {
            assert extended[i] == sent[i] && extended[j] == sent[j];
          } else {
            assert sent[i] in sent;
          }
        }
      }
    }
  }

  /** Once a send has failed, later router IDs add nothing. */
  lemma {:induction false} DiscoverSendsStop(routerIds: set<nat>, sendResults: seq<Error>, m: nat, n: nat)
    requires m <= n <= |sendResults| == RouterIdCount
    requires DiscoverSends(routerIds, sendResults, m).1 != NoError
    ensures DiscoverSends(routerIds, sendResults, n) == DiscoverSends(routerIds, sendResults, m)
  {
    if n > m {
      DiscoverSendsStop(routerIds, sendResults, m, n - 1);
    }
  }

  /** What ParseFrom finds for the Version TLV: the value, no such TLV, or a read error other than NotFound. */
  datatype VersionLookup = VersionFound(version: uint16) | VersionMissing | VersionUnreadable(error: Error)

  /** The TLVs of a Diagnostic Get answer that RouterInfo::ParseFrom reads. */
  datatype DiagAnswer = DiagAnswer(
    address16: Option<uint16>,
    extAddress: Option<seq<uint8>>,
    /** Route TLV: the router-ID mask and the link-quality entries in compact order. */
    routerIdMask: Option<seq<bool>>,
    routeLinkQualities: seq<uint8>,
    version: VersionLookup)

  datatype RouterInfo = RouterInfo(rloc16: uint16, routerId: nat, version: uint16, linkQualities: seq<uint8>)

  /** The number of router IDs below `id` that the mask has set: the compact index of `id`. */
  function CompactIndex(mask: seq<bool>, id: nat): (index: nat)
    requires id <= |mask|
    ensures index <= id
  {
    if id == 0 then 0 else CompactIndex(mask, id - 1) + (if mask[id - 1] then 1 else 0)
  }

  /**
   * The link-quality loop of ParseFrom: the link quality of each set
   * router ID is the next entry of the Route TLV; the others stay cleared.
   */
  method CompactLinkQualities(mask: seq<bool>, entries: seq<uint8>) returns (linkQualities: seq<uint8>)
    requires |mask| == RouterIdCount && |entries| >= RouterIdCount
    ensures |linkQualities| == RouterIdCount
    ensures forall id | 0 <= id < RouterIdCount ::
              linkQualities[id] == if mask[id] then entries[CompactIndex(mask, id)] else 0
  {
    linkQualities := seq(RouterIdCount, _ => 0);
    var id, index := 0, 0;
    while id < RouterIdCount
      invariant 0 <= id <= RouterIdCount && |linkQualities| == RouterIdCount
      invariant index == CompactIndex(mask, id)
      invariant forall k | 0 <= k < id :: linkQualities[k] == if mask[k] then entries[CompactIndex(mask, k)] else 0
      invariant forall k | id <= k < RouterIdCount :: linkQualities[k] == 0
    {
      if mask[id] {
        linkQualities := linkQualities[id := entries[index]];
        index := index + 1;
      }
      id := id + 1;
    }
  }

  /** RouterInfo::ParseFrom. */
  method ParseFrom(answer: DiagAnswer) returns (error: Error, info: RouterInfo)
    requires answer.routerIdMask.Some? ==> |answer.routerIdMask.value| == RouterIdCount
    requires |answer.routeLinkQualities| >= RouterIdCount
    requires answer.version.VersionUnreadable? ==> answer.version.error !in {NoError, NotFound}
    ensures error == NoError <==>
              answer.address16.Some? && answer.extAddress.Some? && answer.routerIdMask.Some?
              && !answer.version.VersionUnreadable?
    ensures error != NoError ==> error == NotFound || (answer.version.VersionUnreadable? && error == answer.version.error)
    ensures error == NoError ==>
              info.rloc16 == answer.address16.value
              && info.routerId == RouterIdFromRloc16(info.rloc16)
              && info.version == (if answer.version.VersionFound? then answer.version.version else VersionUnknown)
              && |info.linkQualities| == RouterIdCount
              && forall id | 0 <= id < RouterIdCount ::
                   info.linkQualities[id] == if answer.routerIdMask.value[id]
                                             then answer.routeLinkQualities[CompactIndex(answer.routerIdMask.value, id)]
                                             else 0
  {
    info := RouterInfo(0, 0, 0, []);
    if answer.address16.None? || answer.extAddress.None? || answer.routerIdMask.None? {
      return NotFound, info;
    }
    var version: uint16;
    match answer.version {
      case VersionFound(v) => version := v;
      case VersionMissing => version := VersionUnknown;
      case VersionUnreadable(e) => return e, info;
    }
    var linkQualities := CompactLinkQualities(answer.routerIdMask.value, answer.routeLinkQualities);
    var rloc16 := answer.address16.value;
    info := RouterInfo(rloc16, RouterIdFromRloc16(rloc16), version, linkQualities);
    error := NoError;
  }

  /** ChildIterator: a child's RLOC16 is its parent's plus its child ID, as a uint16. */
  function ChildRloc16(parentRloc16: uint16, childId: uint16): (r: uint16)
    ensures parentRloc16 + childId < 0x1_0000 ==> r == parentRloc16 + childId
  {
    Wrap16(parentRloc16 + childId)
  }

  /** The collaborators MeshDiag asks: MLE and the router table. */
  datatype Environment = Environment(attached: bool, allocatedRouterIds: set<nat>)

  class MeshDiagnostics {
    var state: State
    var expectedQueryId: uint16
    var expectedAnswerIndex: uint16
    var responseTimeout: uint32
    var timerRunning: bool
    var timerFireTime: nat
    var expectedRouterIds: set<nat>
    /** Router IDs a Diagnostic Get was sent to. */
    var discoverySent: seq<nat>
    /** Diagnostic Get transactions aborted by Cancel. */
    var abortedDiscoveries: nat
    /** Callback invocations, in order. */
    var reports: seq<Report>
    const minResponseTimeout: uint32
    const maxResponseTimeout: uint32

    constructor (defaultTimeout: uint32, minTimeout: uint32, maxTimeout: uint32)
      requires minTimeout <= maxTimeout
      ensures state == StateIdle && expectedQueryId == 0 && expectedAnswerIndex == 0
      ensures responseTimeout == defaultTimeout && !timerRunning && reports == []
      ensures minResponseTimeout == minTimeout && maxResponseTimeout == maxTimeout
    {
      state := StateIdle;
      expectedQueryId, expectedAnswerIndex := 0, 0;
      responseTimeout := defaultTimeout;
      timerRunning, timerFireTime := false, 0;
      expectedRouterIds, discoverySent := {}, [];
      abortedDiscoveries, reports := 0, [];
      minResponseTimeout, maxResponseTimeout := minTimeout, maxTimeout;
    }

    method SetResponseTimeout(timeout: uint32)
      requires minResponseTimeout <= maxResponseTimeout
      modifies this`responseTimeout
      ensures responseTimeout == Clamp(timeout, minResponseTimeout, maxResponseTimeout)
    {
      responseTimeout := Clamp(timeout, minResponseTimeout, maxResponseTimeout);
    }

    /**
     * StateDiscoverTopology: InvalidState when detached, Busy when an operation
     * runs; otherwise a Diagnostic Get to each allocated router in ID order,
     * stopping at the first failed send; only when all go out does the
     * operation start.
     */
    method DiscoverTopology(env: Environment, sendResults: seq<Error>, now: nat) returns (error: Error)
      requires |sendResults| == RouterIdCount
      modifies this`expectedRouterIds, this`discoverySent, this`state, this`timerRunning, this`timerFireTime
      ensures !env.attached ==> error == InvalidState && state == old(state) && discoverySent == old(discoverySent)
      ensures env.attached && old(state) != StateIdle ==> error == Busy && state == old(state) && discoverySent == old(discoverySent)
      ensures env.attached && old(state) == StateIdle ==>
                var (sent, sendError) := DiscoverSends(env.allocatedRouterIds, sendResults, RouterIdCount);
                error == sendError && expectedRouterIds == env.allocatedRouterIds
                && discoverySent == old(discoverySent) + sent
                && (error == NoError ==> state == StateDiscoverTopology && timerRunning && timerFireTime == now + responseTimeout)
                && (error != NoError ==> state == StateIdle && timerRunning == old(timerRunning))
    {
      if !env.attached {
        return InvalidState;
      }
      if state != StateIdle {
        return Busy;
      }
      expectedRouterIds := env.allocatedRouterIds;
      error := NoError;
      var routerId := 0;
      while routerId < RouterIdCount
        invariant 0 <= routerId <= RouterIdCount
        invariant error == NoError && state == StateIdle && expectedRouterIds == env.allocatedRouterIds
        invariant timerRunning == old(timerRunning)
        invariant discoverySent == old(discoverySent) + DiscoverSends(env.allocatedRouterIds, sendResults, routerId).0
        invariant DiscoverSends(env.allocatedRouterIds, sendResults, routerId).1 == NoError
      {
        if routerId in expectedRouterIds {
          error := sendResults[routerId];
          if error != NoError {
            DiscoverSendsStop(env.allocatedRouterIds, sendResults, routerId + 1, RouterIdCount);
            return;
          }
          discoverySent := discoverySent + [routerId];
        }
        routerId := routerId + 1;
      }
      state := StateDiscoverTopology;
      timerRunning, timerFireTime := true, now + responseTimeout;
    }

    /**
     * HandleDiagGetResponse: a successful, parsed answer during discovery
     * removes its router ID; the last one ends discovery with None, the
     * others report Pending.
     */
    method HandleDiagGetResponse(result: Error, hasMessage: bool, parsed: bool, routerId: nat)
      modifies this`expectedRouterIds, this`state, this`timerRunning, this`reports
      ensures !(result == NoError && hasMessage && old(state) == StateDiscoverTopology && parsed) ==>
                expectedRouterIds == old(expectedRouterIds) && state == old(state) && reports == old(reports)
                && timerRunning == old(timerRunning)
      ensures result == NoError && hasMessage && old(state) == StateDiscoverTopology && parsed ==>
                expectedRouterIds == old(expectedRouterIds) - {routerId}
                && (expectedRouterIds == {} ==> state == StateIdle && !timerRunning
                                                 && reports == old(reports) + [Report(StateDiscoverTopology, NoError)])
                && (expectedRouterIds != {} ==> state == StateDiscoverTopology && timerRunning == old(timerRunning)
                                                 && reports == old(reports) + [Report(StateDiscoverTopology, Pending)])
    {
      if result != NoError || !hasMessage || state != StateDiscoverTopology || !parsed {
        return;
      }
      expectedRouterIds := expectedRouterIds - {routerId};
      var error;
      if expectedRouterIds == {} {
        error := NoError;
        state := StateIdle;
        timerRunning := false;
      } else {
        error := Pending;
      }
      reports := reports + [Report(StateDiscoverTopology, error)];
    }

    /**
     * SendQuery and the Query* operations on top of it: the guards of
     * StateDiscoverTopology, then InvalidArgs for a child RLOC16 and NotFound for
     * an unallocated router; a sent query resets the expected answer index
     * and starts the operation.
     */
    method Query(operation: State, rloc16: uint16, env: Environment, sendResult: Error, lastQueryId: uint16, now: nat)
      returns (error: Error)
      requires IsQuery(operation)
      modifies this`state, this`expectedQueryId, this`expectedAnswerIndex, this`timerRunning, this`timerFireTime
      ensures error == (if !env.attached then InvalidState
                        else if old(state) != StateIdle then Busy
                        else if !IsRouterRloc16(rloc16) then InvalidArgs
                        else if RouterIdFromRloc16(rloc16) !in env.allocatedRouterIds then NotFound
                        else sendResult)
      ensures error == NoError ==> state == operation && expectedQueryId == lastQueryId
                                   && expectedAnswerIndex == 0 && timerRunning && timerFireTime == now + responseTimeout
      ensures error != NoError ==> state == old(state) && expectedAnswerIndex == old(expectedAnswerIndex)
    {
      error := SendQuery(rloc16, env, sendResult, lastQueryId, now);
      if error == NoError {
        state := operation;
      }
    }

    method SendQuery(rloc16: uint16, env: Environment, sendResult: Error, lastQueryId: uint16, now: nat)
      returns (error: Error)
      modifies this`expectedQueryId, this`expectedAnswerIndex, this`timerRunning, this`timerFireTime
      ensures error == (if !env.attached then InvalidState
                        else if state != StateIdle then Busy
                        else if !IsRouterRloc16(rloc16) then InvalidArgs
                        else if RouterIdFromRloc16(rloc16) !in env.allocatedRouterIds then NotFound
                        else sendResult)
      ensures error == NoError ==> expectedQueryId == lastQueryId && expectedAnswerIndex == 0
                                   && timerRunning && timerFireTime == now + responseTimeout
      ensures error != NoError ==> expectedQueryId == old(expectedQueryId) && expectedAnswerIndex == old(expectedAnswerIndex)
                                   && timerRunning == old(timerRunning) && timerFireTime == old(timerFireTime)
    {
      if !env.attached {
        return InvalidState;
      }
      if state != StateIdle {
        return Busy;
      }
      if !IsRouterRloc16(rloc16) {
        return InvalidArgs;
      }
      if RouterIdFromRloc16(rloc16) !in env.allocatedRouterIds {
        return NotFound;
      }
      error := sendResult;
      if error != NoError {
        return;
      }
      expectedQueryId, expectedAnswerIndex := lastQueryId, 0;
      timerRunning, timerFireTime := true, now + responseTimeout;
    }

    /**
     * ProcessMessage: an answer counts only from the queried router's RLOC
     * with the expected query ID; an out-of-order answer index ends the
     * query with ResponseTimeout; an in-order one advances the index.
     */
    method ProcessMessage(fromRoutingLocator: bool, peerLocator: uint16, senderRloc16: uint16,
                          queryId: Option<uint16>, answerIndex: Option<uint16>)
      returns (error: Error)
      modifies this`state, this`timerRunning, this`expectedAnswerIndex, this`reports, this`abortedDiscoveries
      ensures error == NoError || error == Failed
      ensures error == NoError <==>
                fromRoutingLocator && peerLocator == senderRloc16
                && queryId == Some(old(expectedQueryId)) && answerIndex == Some(old(expectedAnswerIndex))
      ensures error == NoError ==> expectedAnswerIndex == Wrap16(old(expectedAnswerIndex) + 1)
                                   && state == old(state) && reports == old(reports)
                                   && timerRunning == old(timerRunning)
                                   && abortedDiscoveries == old(abortedDiscoveries)
      ensures !(fromRoutingLocator && peerLocator == senderRloc16 && queryId == Some(old(expectedQueryId))
                && answerIndex.Some?) ==>
                state == old(state) && reports == old(reports) && timerRunning == old(timerRunning)
                && expectedAnswerIndex == old(expectedAnswerIndex) && abortedDiscoveries == old(abortedDiscoveries)
      ensures fromRoutingLocator && peerLocator == senderRloc16 && queryId == Some(old(expectedQueryId))
              && answerIndex.Some? && answerIndex.value != old(expectedAnswerIndex) ==>
                state == StateIdle && !timerRunning && expectedAnswerIndex == old(expectedAnswerIndex)
                && abortedDiscoveries == old(abortedDiscoveries) + (if old(state) == StateDiscoverTopology then 1 else 0)
                && reports == old(reports) + (if old(state) == StateIdle then [] else [Report(old(state), ResponseTimeout)])
    {
      error := Failed;
      if !fromRoutingLocator || peerLocator != senderRloc16 || queryId != Some(expectedQueryId) || answerIndex.None? {
        return;
      }
      if answerIndex.value != expectedAnswerIndex {
        Finalize(ResponseTimeout);
        return;
      }
      expectedAnswerIndex := Wrap16(expectedAnswerIndex + 1);
      error := NoError;
    }

    /** Cancel: back to StateIdle with the timer stopped; a discovery also aborts its Diagnostic Gets. */
    method Cancel()
      modifies this`state, this`timerRunning, this`abortedDiscoveries
      ensures state == StateIdle && !timerRunning
      ensures abortedDiscoveries == old(abortedDiscoveries) + (if old(state) == StateDiscoverTopology then 1 else 0)
    {
      if state == StateDiscoverTopology {
        abortedDiscoveries := abortedDiscoveries + 1;
      }
      state := StateIdle;
      timerRunning := false;
    }

    /** Finalize: Cancel, then the callback of the operation that was running, once, with the error. */
    method Finalize(error: Error)
      modifies this`state, this`timerRunning, this`abortedDiscoveries, this`reports
      ensures state == StateIdle && !timerRunning
      ensures abortedDiscoveries == old(abortedDiscoveries) + (if old(state) == StateDiscoverTopology then 1 else 0)
      ensures reports == old(reports) + (if old(state) == StateIdle then [] else [Report(old(state), error)])
    {
      var oldState := state;
      Cancel();
      if oldState != StateIdle {
        reports := reports + [Report(oldState, error)];
      }
    }

    method HandleTimer()
      modifies this`state, this`timerRunning, this`abortedDiscoveries, this`reports
      ensures state == StateIdle && !timerRunning
      ensures reports == old(reports) + (if old(state) == StateIdle then [] else [Report(old(state), ResponseTimeout)])
    {
      Finalize(ResponseTimeout);
    }
  }

  /** The compact index of a set router ID is below the number of set IDs, so it names a distinct entry. */
  lemma {:induction false} CompactIndexDistinct(mask: seq<bool>, a: nat, b: nat)
    requires a < b <= |mask| && mask[a]
    ensures CompactIndex(mask, a) < CompactIndex(mask, b)
  {
    if b > a + 1 {
      CompactIndexDistinct(mask, a, b - 1);
    }
  }
}
