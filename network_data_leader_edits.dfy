/**
 * The edits the leader makes to its Network Data, stated as functions on
 * TLV values: finding sub-TLVs and entries, dropping the entries of a
 * departing RLOC16, recomputing a TLV's stable flag, adding Has Route,
 * Border Router and Server entries, and removing a context. The Leader
 * class carries them out step by step and is proved to reach these values.
 */
module NetworkDataLeaderEdits {
  import opened Common
  import opened NetworkData
  import opened NetworkDataContextIds

  datatype MatchMode = MatchRloc16 | MatchRouterId

  /** Leader::RlocMatch: the same RLOC16, or the same router ID. */
  predicate RlocMatch(first: uint16, second: uint16, mode: MatchMode)
  {
    match mode
    case MatchRloc16 => first == second
    case MatchRouterId => RouterIdFromRloc16(first) == RouterIdFromRloc16(second)
  }

  /** What RemoveRloc removes: the entries whose RLOC16 matches `rloc16` under `mode`. */
  datatype Removal = Removal(rloc16: uint16, mode: MatchMode)

  /** ChangedFlags: whether the Network Data, and its stable subset, changed. */
  datatype ChangedFlags = ChangedFlags(changed: bool, stableChanged: bool)
  {
    /** Update: a sub-TLV with this stable flag was edited. */
    function Update(stable: bool): ChangedFlags
    {
      ChangedFlags(true, stableChanged || stable)
    }
  }

  const NoChange := ChangedFlags(false, false)

  // ---------------------------------------------------------------------
  // Finding sub-TLVs and TLVs
  // ---------------------------------------------------------------------

  datatype SubKind = HasRouteKind | BorderRouterKind | ContextKind

  predicate IsKind(sub: SubTlv, kind: SubKind)
  {
    match kind
    case HasRouteKind => sub.HasRoute?
    case BorderRouterKind => sub.BorderRouter?
    case ContextKind => sub.Context?
  }

  /** The sub-TLVs FindSubTlv looks for: of a kind, and with a stable flag when one is given. */
  predicate Selects(sub: SubTlv, kind: SubKind, stable: Option<bool>)
  {
    IsKind(sub, kind) && (stable.None? || sub.stable == stable.value)
  }

  /** PrefixTlv::FindSubTlv: the index of the first sub-TLV selected. */
  function FindSub(subs: seq<SubTlv>, kind: SubKind, stable: Option<bool>): (r: Option<nat>)
    ensures r.Some? ==> r.value < |subs| && Selects(subs[r.value], kind, stable)
    ensures r.Some? ==> forall j | 0 <= j < r.value :: !Selects(subs[j], kind, stable)
    ensures r.None? ==> forall j | 0 <= j < |subs| :: !Selects(subs[j], kind, stable)
  {
    if subs == [] then None
    else if Selects(subs[0], kind, stable) then Some(0)
    else
      match FindSub(subs[1..], kind, stable)
      case None => None
      case Some(i) => Some(i + 1)
  }

  /** Rewriting one sub-TLV without changing whether it is selected leaves the search alone. */
  lemma {:induction false} FindSubUpdate(subs: seq<SubTlv>, i: nat, sub: SubTlv, kind: SubKind, stable: Option<bool>)
    requires i < |subs| && Selects(sub, kind, stable) == Selects(subs[i], kind, stable)
    ensures FindSub(subs[i := sub], kind, stable) == FindSub(subs, kind, stable)
  {
    if i > 0 {
      assert subs[i := sub][1..] == subs[1..][i - 1 := sub];
      FindSubUpdate(subs[1..], i - 1, sub, kind, stable);
    } else {
      assert subs[i := sub][1..] == subs[1..];
    }
  }

  /** Appending a sub-TLV changes the search only when nothing was selected before. */
  lemma {:induction false} FindSubAppend(subs: seq<SubTlv>, sub: SubTlv, kind: SubKind, stable: Option<bool>)
    ensures FindSub(subs + [sub], kind, stable)
            == if FindSub(subs, kind, stable).Some? then FindSub(subs, kind, stable)
               else if Selects(sub, kind, stable) then Some(|subs|) else None
  {
    if subs == [] {
      assert [] + [sub] == [sub];
    } else {
      assert (subs + [sub])[1..] == subs[1..] + [sub];
      FindSubAppend(subs[1..], sub, kind, stable);
    }
  }

  /** PrefixTlv::IsEqual: the same prefix length and the same leading prefix bits. */
  predicate PrefixIsEqual(tlv: Tlv, prefixLength: uint8, prefix: seq<uint8>)
  {
    tlv.Prefix? && tlv.prefixLength == prefixLength
    && |tlv.prefix| == |prefix| == PrefixBytes(prefixLength as nat)
    && PrefixBitsMatch(tlv.prefix, prefix, prefixLength as nat)
  }

  /** NetworkData::FindPrefix. */
  function FindPrefix(tlvs: seq<Tlv>, prefixLength: uint8, prefix: seq<uint8>): (r: Option<Tlv>)
    ensures r.Some? ==> r.value in tlvs && PrefixIsEqual(r.value, prefixLength, prefix)
    ensures r.None? ==> forall k | 0 <= k < |tlvs| :: !PrefixIsEqual(tlvs[k], prefixLength, prefix)
  {
    if tlvs == [] then None
    else if PrefixIsEqual(tlvs[0], prefixLength, prefix) then Some(tlvs[0])
    else FindPrefix(tlvs[1..], prefixLength, prefix)
  }

  /** NetworkData::FindService with an exact match of the service data. */
  function FindService(tlvs: seq<Tlv>, enterpriseNumber: uint32, serviceData: seq<uint8>): (r: Option<Tlv>)
    ensures r.Some? ==> r.value in tlvs && r.value.Service?
                        && r.value.enterpriseNumber == enterpriseNumber && r.value.serviceData == serviceData
    ensures r.None? ==> forall k | 0 <= k < |tlvs| :: !(tlvs[k].Service? && tlvs[k].enterpriseNumber == enterpriseNumber
                                                         && tlvs[k].serviceData == serviceData)
  {
    if tlvs == [] then None
    else if tlvs[0].Service? && tlvs[0].enterpriseNumber == enterpriseNumber && tlvs[0].serviceData == serviceData
    then Some(tlvs[0])
    else FindService(tlvs[1..], enterpriseNumber, serviceData)
  }

  /** The Prefix TLV of the exclude data matching a Prefix TLV of the leader. */
  function ExcludePrefix(exclude: seq<Tlv>, tlv: Tlv): Option<Tlv>
    requires tlv.Prefix?
  {
    FindPrefix(exclude, tlv.prefixLength, tlv.prefix)
  }

  /** The Service TLV of the exclude data matching a Service TLV of the leader. */
  function ExcludeService(exclude: seq<Tlv>, tlv: Tlv): Option<Tlv>
    requires tlv.Service?
  {
    FindService(exclude, tlv.enterpriseNumber, tlv.serviceData)
  }

  // ---------------------------------------------------------------------
  // ContainsMatchingEntry and ContainsMatchingServer
  // ---------------------------------------------------------------------

  /** ContainsMatchingEntry: the prefix's first Has Route sub-TLV with this stable flag holds the entry. */
  predicate ContainsRoute(prefix: Option<Tlv>, stable: bool, entry: HasRouteEntry)
  {
    prefix.Some? && prefix.value.Prefix?
    && var i := FindSub(prefix.value.subTlvs, HasRouteKind, Some(stable));
       i.Some? && entry in prefix.value.subTlvs[i.value].routes
  }

  /** ContainsMatchingEntry: the prefix's first Border Router sub-TLV with this stable flag holds the entry. */
  predicate ContainsRouter(prefix: Option<Tlv>, stable: bool, entry: BorderRouterEntry)
  {
    prefix.Some? && prefix.value.Prefix?
    && var i := FindSub(prefix.value.subTlvs, BorderRouterKind, Some(stable));
       i.Some? && entry in prefix.value.subTlvs[i.value].routers
  }

  /** ContainsMatchingServer: the service holds an identical Server sub-TLV (stable flag included). */
  predicate ContainsServer(service: Option<Tlv>, server: SubTlv)
  {
    service.Some? && service.value.Service? && server in service.value.subTlvs
  }

  // ---------------------------------------------------------------------
  // RemoveRloc
  // ---------------------------------------------------------------------

  predicate RouteRemovable(entry: HasRouteEntry, stable: bool, r: Removal, exclude: Option<Tlv>)
  {
    RlocMatch(entry.rloc16, r.rloc16, r.mode) && !ContainsRoute(exclude, stable, entry)
  }

  predicate RouterRemovable(entry: BorderRouterEntry, stable: bool, r: Removal, exclude: Option<Tlv>)
  {
    RlocMatch(entry.rloc16, r.rloc16, r.mode) && !ContainsRouter(exclude, stable, entry)
  }

  predicate ServerRemovable(sub: SubTlv, r: Removal, exclude: Option<Tlv>)
  {
    sub.Server? && RlocMatch(sub.server16, r.rloc16, r.mode) && !ContainsServer(exclude, sub)
  }

  /** The Has Route entries RemoveRlocInHasRoute keeps, in order. */
  function KeptRoutes(routes: seq<HasRouteEntry>, stable: bool, r: Removal, exclude: Option<Tlv>): (kept: seq<HasRouteEntry>)
    ensures |kept| <= |routes|
  {
    if routes == [] then []
    else
      var n := |routes| - 1;
      KeptRoutes(routes[..n], stable, r, exclude) + (if RouteRemovable(routes[n], stable, r, exclude) then [] else [routes[n]])
  }

  /** The flags after RemoveRlocInHasRoute: one Update per entry removed. */
  function RoutesFlags(flags: ChangedFlags, routes: seq<HasRouteEntry>, stable: bool, r: Removal, exclude: Option<Tlv>)
    : ChangedFlags
  {
    if routes == [] then flags
    else
      var n := |routes| - 1;
      var before := RoutesFlags(flags, routes[..n], stable, r, exclude);
      if RouteRemovable(routes[n], stable, r, exclude) then before.Update(stable) else before
  }

  function KeptRouters(routers: seq<BorderRouterEntry>, stable: bool, r: Removal, exclude: Option<Tlv>)
    : (kept: seq<BorderRouterEntry>)
    ensures |kept| <= |routers|
  {
    if routers == [] then []
    else
      var n := |routers| - 1;
      KeptRouters(routers[..n], stable, r, exclude) + (if RouterRemovable(routers[n], stable, r, exclude) then [] else [routers[n]])
  }

  function RoutersFlags(flags: ChangedFlags, routers: seq<BorderRouterEntry>, stable: bool, r: Removal, exclude: Option<Tlv>)
    : ChangedFlags
  {
    if routers == [] then flags
    else
      var n := |routers| - 1;
      var before := RoutersFlags(flags, routers[..n], stable, r, exclude);
      if RouterRemovable(routers[n], stable, r, exclude) then before.Update(stable) else before
  }

  /** The sub-TLVs RemoveRlocInService keeps. */
  function KeptServers(subs: seq<SubTlv>, r: Removal, exclude: Option<Tlv>): (kept: seq<SubTlv>)
    ensures |kept| <= |subs|
  {
    if subs == [] then []
    else
      var n := |subs| - 1;
      KeptServers(subs[..n], r, exclude) + (if ServerRemovable(subs[n], r, exclude) then [] else [subs[n]])
  }

  /** The flags after RemoveRlocInService: one Update, with the server's stable flag, per server removed. */
  function ServersFlags(flags: ChangedFlags, subs: seq<SubTlv>, r: Removal, exclude: Option<Tlv>): ChangedFlags
  {
    if subs == [] then flags
    else
      var n := |subs| - 1;
      var before := ServersFlags(flags, subs[..n], r, exclude);
      if ServerRemovable(subs[n], r, exclude) then before.Update(subs[n].stable) else before
  }

  /** A sub-TLV after RemoveRlocInPrefix's loop: Has Route and Border Router sub-TLVs left empty are dropped. */
  function PrunedSub(sub: SubTlv, r: Removal, exclude: Option<Tlv>): seq<SubTlv>
  {
    match sub
    case HasRoute(stable, routes) =>
      var kept := KeptRoutes(routes, stable, r, exclude);
      if kept == [] then [] else [HasRoute(stable, kept)]
    case BorderRouter(stable, routers) =>
      var kept := KeptRouters(routers, stable, r, exclude);
      if kept == [] then [] else [BorderRouter(stable, kept)]
    case _ => [sub]
  }

  function SubFlags(flags: ChangedFlags, sub: SubTlv, r: Removal, exclude: Option<Tlv>): ChangedFlags
  {
    match sub
    case HasRoute(stable, routes) => RoutesFlags(flags, routes, stable, r, exclude)
    case BorderRouter(stable, routers) => RoutersFlags(flags, routers, stable, r, exclude)
    case _ => flags
  }

  function PrunedSubs(subs: seq<SubTlv>, r: Removal, exclude: Option<Tlv>): seq<SubTlv>
  {
    if subs == [] then []
    else
      var n := |subs| - 1;
      PrunedSubs(subs[..n], r, exclude) + PrunedSub(subs[n], r, exclude)
  }

  function PrunedFlags(flags: ChangedFlags, subs: seq<SubTlv>, r: Removal, exclude: Option<Tlv>): ChangedFlags
  {
    if subs == [] then flags
    else
      var n := |subs| - 1;
      SubFlags(PrunedFlags(flags, subs[..n], r, exclude), subs[n], r, exclude)
  }

  /**
   * The end of RemoveRlocInPrefix: the first Context sub-TLV gets its
   * compress flag cleared and its ID released when no Border Router
   * sub-TLV is left, and set, with its ID kept in use, otherwise.
   */
  function ContextStep(subs: seq<SubTlv>): (seq<SubTlv>, ContextAction)
  {
    match FindSub(subs, ContextKind, None)
    case None => (subs, NoContext)
    case Some(c) =>
      var ctx := subs[c];
      if FindSub(subs, BorderRouterKind, None).None?
      then (subs[c := Context(ctx.stable, false, ctx.contextId, ctx.contextLength)], Release(ctx.contextId as nat))
      else (subs[c := Context(ctx.stable, true, ctx.contextId, ctx.contextLength)], KeepInUse(ctx.contextId as nat))
  }

  function PrefixRlocRemoved(prefix: Tlv, r: Removal, exclude: Option<Tlv>): Tlv
    requires prefix.Prefix?
  {
    WithSubTlvs(prefix, ContextStep(PrunedSubs(prefix.subTlvs, r, exclude)).0)
  }

  function PrefixContextAction(prefix: Tlv, r: Removal, exclude: Option<Tlv>): ContextAction
    requires prefix.Prefix?
  {
    ContextStep(PrunedSubs(prefix.subTlvs, r, exclude)).1
  }

  predicate AnyStable(subs: seq<SubTlv>)
  {
    exists k | 0 <= k < |subs| :: subs[k].stable
  }

  /** UpdateTlv: a TLV left without sub-TLVs is removed; otherwise it is stable exactly when a sub-TLV is. */
  function UpdatedTlv(tlv: Tlv): (r: seq<Tlv>)
    requires HasSubTlvs(tlv)
  {
    if tlv.subTlvs == [] then [] else [WithStable(tlv, AnyStable(tlv.subTlvs))]
  }

  /** One TLV after RemoveRloc: a Prefix or Service TLV is pruned, then updated or removed. */
  function RlocRemovedTlv(tlv: Tlv, r: Removal, exclude: seq<Tlv>): seq<Tlv>
  {
    match tlv
    case Prefix(_, _, _, _, _) => UpdatedTlv(PrefixRlocRemoved(tlv, r, ExcludePrefix(exclude, tlv)))
    case Service(_, _, _, _, subs) => UpdatedTlv(WithSubTlvs(tlv, KeptServers(subs, r, ExcludeService(exclude, tlv))))
    case _ => [tlv]
  }

  function RlocRemovedTlvFlags(flags: ChangedFlags, tlv: Tlv, r: Removal, exclude: seq<Tlv>): ChangedFlags
  {
    match tlv
    case Prefix(_, _, _, _, subs) => PrunedFlags(flags, subs, r, ExcludePrefix(exclude, tlv))
    case Service(_, _, _, _, subs) => ServersFlags(flags, subs, r, ExcludeService(exclude, tlv))
    case _ => flags
  }

  function RlocRemovedTlvAction(tlv: Tlv, r: Removal, exclude: seq<Tlv>): seq<ContextAction>
  {
    if tlv.Prefix? then [PrefixContextAction(tlv, r, ExcludePrefix(exclude, tlv))] else []
  }

  /** The Network Data after RemoveRloc. */
  function RlocRemoved(tlvs: seq<Tlv>, r: Removal, exclude: seq<Tlv>): seq<Tlv>
  {
    if tlvs == [] then []
    else
      var n := |tlvs| - 1;
      RlocRemoved(tlvs[..n], r, exclude) + RlocRemovedTlv(tlvs[n], r, exclude)
  }

  function RlocRemovedFlags(flags: ChangedFlags, tlvs: seq<Tlv>, r: Removal, exclude: seq<Tlv>): ChangedFlags
  {
    if tlvs == [] then flags
    else
      var n := |tlvs| - 1;
      RlocRemovedTlvFlags(RlocRemovedFlags(flags, tlvs[..n], r, exclude), tlvs[n], r, exclude)
  }

  /** The context actions RemoveRloc takes, one per Prefix TLV, in order. */
  function RlocRemovedActions(tlvs: seq<Tlv>, r: Removal, exclude: seq<Tlv>): seq<ContextAction>
  {
    if tlvs == [] then []
    else
      var n := |tlvs| - 1;
      RlocRemovedActions(tlvs[..n], r, exclude) + RlocRemovedTlvAction(tlvs[n], r, exclude)
  }

  // ---------------------------------------------------------------------
  // RemoveContext
  // ---------------------------------------------------------------------

  /** The sub-TLVs of a prefix without its Context sub-TLVs of this ID. */
  function ContextRemovedSubs(subs: seq<SubTlv>, id: nat): seq<SubTlv>
  {
    if subs == [] then []
    else
      var n := |subs| - 1;
      ContextRemovedSubs(subs[..n], id)
      + (if subs[n].Context? && subs[n].contextId as nat == id then [] else [subs[n]])
  }

  /** The Network Data after RemoveContext: every Prefix TLV loses that context and is then updated. */
  function ContextRemoved(tlvs: seq<Tlv>, id: nat): seq<Tlv>
  {
    if tlvs == [] then []
    else
      var n := |tlvs| - 1;
      var t := tlvs[n];
      ContextRemoved(tlvs[..n], id)
      + (if t.Prefix? then UpdatedTlv(WithSubTlvs(t, ContextRemovedSubs(t.subTlvs, id))) else [t])
  }

  // ---------------------------------------------------------------------
  // Context IDs held by the Network Data
  // ---------------------------------------------------------------------

  predicate SubsContextsInRange(subs: seq<SubTlv>)
  {
    forall k | 0 <= k < |subs| :: subs[k].Context? ==> IsContextId(subs[k].contextId as nat)
  }

  predicate TlvContextsInRange(tlv: Tlv)
  {
    tlv.Prefix? ==> SubsContextsInRange(tlv.subTlvs)
  }

  /** Every Context sub-TLV of the Network Data carries an ID ContextIds tracks. */
  predicate ContextsInRange(tlvs: seq<Tlv>)
  {
    forall k | 0 <= k < |tlvs| :: TlvContextsInRange(tlvs[k])
  }

  // ---------------------------------------------------------------------
  // AddHasRoute, AddBorderRouter, AddServer
  // ---------------------------------------------------------------------

  /**
   * The sub-TLVs of a prefix after AddHasRoute: the entry joins the first
   * Has Route sub-TLV with its stable flag, which is appended when missing,
   * unless it is already there.
   */
  function HasRouteAdded(subs: seq<SubTlv>, entry: HasRouteEntry, stable: bool): seq<SubTlv>
  {
    match FindSub(subs, HasRouteKind, Some(stable))
    case None => subs + [HasRoute(stable, [entry])]
    case Some(i) =>
      if entry in subs[i].routes then subs else subs[i := HasRoute(stable, subs[i].routes + [entry])]
  }

  /**
   * The sub-TLVs with `sub` appended when none is selected, and the index
   * of the first selected one: how AddHasRoute and AddBorderRouter obtain
   * the sub-TLV they add to.
   */
  function Ensured(subs: seq<SubTlv>, kind: SubKind, stable: Option<bool>, sub: SubTlv): (e: (seq<SubTlv>, nat))
    requires Selects(sub, kind, stable)
    ensures e.1 < |e.0| && Selects(e.0[e.1], kind, stable)
    ensures |subs| <= |e.0| && forall k | 0 <= k < |subs| :: e.0[k] == subs[k]
  {
    match FindSub(subs, kind, stable)
    case None => (subs + [sub], |subs|)
    case Some(i) => (subs, i)
  }

  /** The result of AddBorderRouter before it is written back: an error, the sub-TLVs, and the ID marked in use. */
  datatype AddResult = AddResult(error: Error, subs: seq<SubTlv>, inUse: Option<nat>)

  /**
   * AddBorderRouter, given the ID GetUnallocatedId would hand out and the
   * room left in the Network Data. A missing Border Router sub-TLV (with
   * the entry's stable flag) and a missing Context sub-TLV are appended
   * first, each after its own room check; EntryAdded does the rest.
   */
  function BorderRouterAdded(subs: seq<SubTlv>, prefixLength: uint8, entry: BorderRouterEntry, stable: bool,
                             freeId: Option<nat>, room: int): AddResult
    requires freeId.Some? ==> IsContextId(freeId.value)
  {
    var hasBr := FindSub(subs, BorderRouterKind, Some(stable)).Some?;
    var hasCtx := FindSub(subs, ContextKind, None).Some?;
    if !hasCtx && freeId.None? then AddResult(NotFound, subs, None)
    else if !hasBr && room < TlvHeaderSize + BorderRouterEntrySize + (if hasCtx then 0 else ContextTlvSize)
    then AddResult(NoBufs, subs, None)
    else
      var withBr := Ensured(subs, BorderRouterKind, Some(stable), BorderRouter(stable, []));
      var room1 := if hasBr then room else room - TlvHeaderSize;
      if !hasCtx && room1 < BorderRouterEntrySize + ContextTlvSize then AddResult(NoBufs, withBr.0, None)
      else
        var id := if hasCtx then 0 else freeId.value;
        var withCtx := Ensured(withBr.0, ContextKind, None, Context(false, false, id as uint8, prefixLength));
        var room2 := if hasCtx then room1 else room1 - ContextTlvSize;
        EntryAdded(withCtx.0, withBr.1, withCtx.1, entry, stable, room2)
  }

  /**
   * The rest of AddBorderRouter once the Border Router sub-TLV (at
   * brIndex) and the Context sub-TLV (at ctxIndex) are present: the
   * context becomes stable with a stable entry, gets its compress flag,
   * and has its ID marked in use, all before the last room check for the
   * entry itself.
   */
  function EntryAdded(subs: seq<SubTlv>, brIndex: nat, ctxIndex: nat, entry: BorderRouterEntry, stable: bool,
                      room: int): AddResult
    requires brIndex < |subs| && ctxIndex < |subs| && subs[brIndex].BorderRouter? && subs[ctxIndex].Context?
  {
    var c := subs[ctxIndex];
    var marked := subs[ctxIndex := Context(c.stable || stable, true, c.contextId, c.contextLength)];
    var routers := marked[brIndex].routers;
    if entry in routers then AddResult(NoError, marked, Some(c.contextId as nat))
    else if room < BorderRouterEntrySize then AddResult(NoBufs, marked, Some(c.contextId as nat))
    else AddResult(NoError, marked[brIndex := BorderRouter(stable, routers + [entry])], Some(c.contextId as nat))
  }

  /** The sub-TLVs of a service after AddServer: the Server sub-TLV is appended unless an identical one is there. */
  function ServerAdded(subs: seq<SubTlv>, server: SubTlv): seq<SubTlv>
  {
    if server in subs then subs else subs + [server]
  }

  // ---------------------------------------------------------------------
  // Service IDs and Commissioning Data
  // ---------------------------------------------------------------------

  const MinServiceId: nat := 0
  const MaxServiceId: nat := 15

  /** FindServiceById finds a Service TLV with this ID. */
  predicate ServiceIdUsed(tlvs: seq<Tlv>, id: nat)
  {
    exists k | 0 <= k < |tlvs| :: tlvs[k].Service? && tlvs[k].serviceId as nat == id
  }

  /** FindCommissioningData: the index of the first Commissioning Data TLV. */
  function FindCommissioningData(tlvs: seq<Tlv>): (r: Option<nat>)
    ensures r.Some? ==> r.value < |tlvs| && tlvs[r.value].CommissioningData?
    ensures r.None? ==> forall k | 0 <= k < |tlvs| :: !tlvs[k].CommissioningData?
  {
    if tlvs == [] then None
    else if tlvs[0].CommissioningData? then Some(0)
    else
      match FindCommissioningData(tlvs[1..])
      case None => None
      case Some(i) => Some(i + 1)
  }

  /** The Network Data after SetCommissioningData: the old TLV removed, a non-stable one with the data appended. */
  function CommissioningDataSet(tlvs: seq<Tlv>, data: seq<uint8>): seq<Tlv>
  {
    WithoutCommissioningData(tlvs) + [CommissioningData(false, data)]
  }

  /** The Network Data without the Commissioning Data TLV FindCommissioningData finds. */
  function WithoutCommissioningData(tlvs: seq<Tlv>): seq<Tlv>
  {
    match FindCommissioningData(tlvs)
    case None => tlvs
    case Some(i) => RemoveAt(tlvs, i)
  }

  // ---------------------------------------------------------------------
  // What RemoveRloc leaves
  // ---------------------------------------------------------------------

  /** RemoveRlocInHasRoute keeps exactly the entries that do not match or are excluded. */
  lemma {:induction false} KeptRoutesMembership(routes: seq<HasRouteEntry>, stable: bool, r: Removal, exclude: Option<Tlv>,
                                                 e: HasRouteEntry)
    ensures e in KeptRoutes(routes, stable, r, exclude) <==> e in routes && !RouteRemovable(e, stable, r, exclude)
  {
    if routes != [] {
      var n := |routes| - 1;
      KeptRoutesMembership(routes[..n], stable, r, exclude, e);
      assert routes == routes[..n] + [routes[n]];
    }
  }

  /** RemoveRlocInBorderRouter keeps exactly the entries that do not match or are excluded. */
  lemma {:induction false} KeptRoutersMembership(routers: seq<BorderRouterEntry>, stable: bool, r: Removal,
                                                  exclude: Option<Tlv>, e: BorderRouterEntry)
    ensures e in KeptRouters(routers, stable, r, exclude) <==> e in routers && !RouterRemovable(e, stable, r, exclude)
  {
    if routers != [] {
      var n := |routers| - 1;
      KeptRoutersMembership(routers[..n], stable, r, exclude, e);
      assert routers == routers[..n] + [routers[n]];
    }
  }

  /** RemoveRlocInService keeps exactly the sub-TLVs that are not matching, unexcluded Server sub-TLVs. */
  lemma {:induction false} KeptServersMembership(subs: seq<SubTlv>, r: Removal, exclude: Option<Tlv>, sub: SubTlv)
    ensures sub in KeptServers(subs, r, exclude) <==> sub in subs && !ServerRemovable(sub, r, exclude)
  {
    if subs != [] {
      var n := |subs| - 1;
      KeptServersMembership(subs[..n], r, exclude, sub);
      assert subs == subs[..n] + [subs[n]];
    }
  }

  lemma {:induction false} KeptServersSize(subs: seq<SubTlv>, r: Removal, exclude: Option<Tlv>)
    ensures SubTlvsSize(KeptServers(subs, r, exclude)) <= SubTlvsSize(subs)
  {
    if subs != [] {
      var n := |subs| - 1;
      KeptServersSize(subs[..n], r, exclude);
      assert subs == subs[..n] + [subs[n]];
      SubTlvsSizeAppend(subs[..n], subs[n]);
      SubTlvsSizeConcat(KeptServers(subs[..n], r, exclude), if ServerRemovable(subs[n], r, exclude) then [] else [subs[n]]);
    }
  }

  /** A sub-TLV RemoveRloc leaves: a Has Route or Border Router sub-TLV is non-empty and holds no removable entry. */
  predicate SubClean(sub: SubTlv, r: Removal, exclude: Option<Tlv>)
  {
    match sub
    case HasRoute(stable, routes) => routes != [] && forall e | e in routes :: !RouteRemovable(e, stable, r, exclude)
    case BorderRouter(stable, routers) => routers != [] && forall e | e in routers :: !RouterRemovable(e, stable, r, exclude)
    case _ => true
  }

  /** The compress flag of the first context is set exactly when a Border Router sub-TLV is present. */
  predicate CompressTracksRouters(subs: seq<SubTlv>)
  {
    var c := FindSub(subs, ContextKind, None);
    c.Some? ==> subs[c.value].compress == FindSub(subs, BorderRouterKind, None).Some?
  }

  /** A TLV RemoveRloc leaves. */
  predicate TlvClean(tlv: Tlv, r: Removal, exclude: seq<Tlv>)
  {
    match tlv
    case Prefix(_, _, _, _, subs) =>
      subs != [] && tlv.stable == AnyStable(subs) && CompressTracksRouters(subs)
      && forall k | 0 <= k < |subs| :: SubClean(subs[k], r, ExcludePrefix(exclude, tlv))
    case Service(_, _, _, _, subs) =>
      subs != [] && tlv.stable == AnyStable(subs)
      && forall k | 0 <= k < |subs| :: !ServerRemovable(subs[k], r, ExcludeService(exclude, tlv))
    case _ => true
  }

  lemma PrunedSubClean(sub: SubTlv, r: Removal, exclude: Option<Tlv>)
    ensures var p := PrunedSub(sub, r, exclude);
            SubTlvsSize(p) <= SubTlvSize(sub) && forall k | 0 <= k < |p| :: SubClean(p[k], r, exclude)
  {
    match sub
    case HasRoute(stable, routes) =>
      forall e | e in KeptRoutes(routes, stable, r, exclude)
        ensures !RouteRemovable(e, stable, r, exclude)
      {
        KeptRoutesMembership(routes, stable, r, exclude, e);
      }
    case BorderRouter(stable, routers) =>
      forall e | e in KeptRouters(routers, stable, r, exclude)
        ensures !RouterRemovable(e, stable, r, exclude)
      {
        KeptRoutersMembership(routers, stable, r, exclude, e);
      }
    case _ =>
  }

  lemma {:induction false} PrunedSubsClean(subs: seq<SubTlv>, r: Removal, exclude: Option<Tlv>)
    ensures SubTlvsSize(PrunedSubs(subs, r, exclude)) <= SubTlvsSize(subs)
    ensures var pruned := PrunedSubs(subs, r, exclude);
            forall k | 0 <= k < |pruned| :: SubClean(pruned[k], r, exclude)
  {
    if subs != [] {
      var n := |subs| - 1;
      var front, last := PrunedSubs(subs[..n], r, exclude), PrunedSub(subs[n], r, exclude);
      PrunedSubsClean(subs[..n], r, exclude);
      PrunedSubClean(subs[n], r, exclude);
      assert subs == subs[..n] + [subs[n]];
      SubTlvsSizeAppend(subs[..n], subs[n]);
      assert PrunedSubs(subs, r, exclude) == front + last;
      SubTlvsSizeConcat(front, last);
      SubCleanConcat(front, last, r, exclude);
    }
  }

  lemma SubCleanConcat(a: seq<SubTlv>, b: seq<SubTlv>, r: Removal, exclude: Option<Tlv>)
    requires forall k | 0 <= k < |a| :: SubClean(a[k], r, exclude)
    requires forall k | 0 <= k < |b| :: SubClean(b[k], r, exclude)
    ensures forall k | 0 <= k < |a + b| :: SubClean((a + b)[k], r, exclude)
  {
    forall k | 0 <= k < |a + b| ensures SubClean((a + b)[k], r, exclude) {
      if k >= |a| {
        assert (a + b)[k] == b[k - |a|];
      }
    }
  }

  lemma {:induction false} PrunedSubsInRange(subs: seq<SubTlv>, r: Removal, exclude: Option<Tlv>)
    requires SubsContextsInRange(subs)
    ensures SubsContextsInRange(PrunedSubs(subs, r, exclude))
  {
    if subs != [] {
      var n := |subs| - 1;
      assert SubsContextsInRange(subs[..n]);
      PrunedSubsInRange(subs[..n], r, exclude);
    }
  }

  /**
   * The context step rewrites at most the first Context sub-TLV's compress
   * flag: sizes, stable flags, the other sub-TLVs and the context IDs stay,
   * and afterwards the compress flag tracks the Border Router sub-TLVs.
   */
  lemma ContextStepFacts(subs: seq<SubTlv>, r: Removal, exclude: Option<Tlv>)
    ensures var out := ContextStep(subs).0;
            |out| == |subs| && SubTlvsSize(out) == SubTlvsSize(subs) && AnyStable(out) == AnyStable(subs)
            && CompressTracksRouters(out)
    ensures var out := ContextStep(subs).0;
            (forall k | 0 <= k < |subs| :: SubClean(subs[k], r, exclude)) ==>
              forall k | 0 <= k < |out| :: SubClean(out[k], r, exclude)
    ensures SubsContextsInRange(subs) ==> SubsContextsInRange(ContextStep(subs).0) && ActionInRange(ContextStep(subs).1)
  {
    var c := FindSub(subs, ContextKind, None);
    if c.Some? {
      var ctx := subs[c.value];
      var br := FindSub(subs, BorderRouterKind, None);
      var out := ContextStep(subs).0;
      assert out == subs[c.value := Context(ctx.stable, br.Some?, ctx.contextId, ctx.contextLength)];
      SubTlvsSizeUpdate(subs, c.value, out[c.value]);
      FindSubUpdate(subs, c.value, out[c.value], ContextKind, None);
      FindSubUpdate(subs, c.value, out[c.value], BorderRouterKind, None);
      if AnyStable(subs) {
        var k :| 0 <= k < |subs| && subs[k].stable;
        assert out[k].stable;
      }
      if AnyStable(out) {
        var k :| 0 <= k < |out| && out[k].stable;
        assert subs[k].stable;
      }
    }
  }

  lemma {:induction false} UpdatedTlvFacts(tlv: Tlv)
    requires HasSubTlvs(tlv)
    ensures TlvsSize(UpdatedTlv(tlv)) <= TlvSize(tlv)
    ensures forall t | t in UpdatedTlv(tlv) :: t == WithStable(tlv, AnyStable(tlv.subTlvs)) && tlv.subTlvs != []
  {
    if tlv.subTlvs != [] {
      assert TlvsSize([WithStable(tlv, AnyStable(tlv.subTlvs))]) == TlvSize(WithStable(tlv, AnyStable(tlv.subTlvs)));
    }
  }

  /** RemoveRloc on one TLV: no larger, its contexts stay in range, and what is left is clean. */
  lemma RlocRemovedTlvFacts(tlv: Tlv, r: Removal, exclude: seq<Tlv>)
    ensures TlvsSize(RlocRemovedTlv(tlv, r, exclude)) <= TlvSize(tlv)
    ensures forall t | t in RlocRemovedTlv(tlv, r, exclude) :: TlvClean(t, r, exclude)
    ensures TlvContextsInRange(tlv) ==>
              (forall t | t in RlocRemovedTlv(tlv, r, exclude) :: TlvContextsInRange(t))
              && ActionsInRange(RlocRemovedTlvAction(tlv, r, exclude))
  {
    match tlv
    case Prefix(_, _, _, _, subs) =>
      var ex := ExcludePrefix(exclude, tlv);
      var pruned := PrunedSubs(subs, r, ex);
      var p := PrefixRlocRemoved(tlv, r, ex);
      PrunedSubsClean(subs, r, ex);
      ContextStepFacts(pruned, r, ex);
      WithSubTlvsSize(tlv, ContextStep(pruned).0);
      UpdatedTlvFacts(p);
      if TlvContextsInRange(tlv) {
        PrunedSubsInRange(subs, r, ex);
      }
    case Service(_, _, _, _, subs) =>
      var kept := KeptServers(subs, r, ExcludeService(exclude, tlv));
      KeptServersSize(subs, r, ExcludeService(exclude, tlv));
      WithSubTlvsSize(tlv, kept);
      UpdatedTlvFacts(WithSubTlvs(tlv, kept));
      forall k | 0 <= k < |kept|
        ensures !ServerRemovable(kept[k], r, ExcludeService(exclude, tlv))
      {
        KeptServersMembership(subs, r, ExcludeService(exclude, tlv), kept[k]);
      }
    case _ =>
      assert TlvsSize([tlv]) == TlvSize(tlv);
  }

  /**
   * RemoveRloc never grows the Network Data, keeps every context ID in
   * range, takes in-range context actions only, and leaves only clean TLVs:
   * no Prefix or Service TLV without sub-TLVs, no empty Has Route or Border
   * Router sub-TLV, no entry or server of the RLOC16 that the exclude data
   * does not hold, stable flags recomputed from the sub-TLVs, and every
   * first context's compress flag set exactly when a border router remains.
   */
  lemma {:induction false} RlocRemovedFacts(tlvs: seq<Tlv>, r: Removal, exclude: seq<Tlv>)
    ensures TlvsSize(RlocRemoved(tlvs, r, exclude)) <= TlvsSize(tlvs)
    ensures forall k | 0 <= k < |RlocRemoved(tlvs, r, exclude)| :: TlvClean(RlocRemoved(tlvs, r, exclude)[k], r, exclude)
    ensures ContextsInRange(tlvs) ==>
              ContextsInRange(RlocRemoved(tlvs, r, exclude))
              && ActionsInRange(RlocRemovedActions(tlvs, r, exclude))
  {
    if tlvs != [] {
      var n := |tlvs| - 1;
      assert tlvs == tlvs[..n] + [tlvs[n]];
      assert ContextsInRange(tlvs) ==> ContextsInRange(tlvs[..n]) && TlvContextsInRange(tlvs[n]);
      RlocRemovedFacts(tlvs[..n], r, exclude);
      RlocRemovedTlvFacts(tlvs[n], r, exclude);
      var front, last := RlocRemoved(tlvs[..n], r, exclude), RlocRemovedTlv(tlvs[n], r, exclude);
      assert RlocRemoved(tlvs, r, exclude) == front + last;
      TlvsSizeAppend(tlvs[..n], tlvs[n]);
      TlvsSizeConcat(front, last);
      CleanConcat(front, last, r, exclude);
      if ContextsInRange(tlvs) {
        ContextsInRangeConcat(front, last);
        var before, action := RlocRemovedActions(tlvs[..n], r, exclude), RlocRemovedTlvAction(tlvs[n], r, exclude);
        assert RlocRemovedActions(tlvs, r, exclude) == before + action;
        ActionsInRangeConcat(before, action);
      }
    }
  }

  lemma CleanConcat(a: seq<Tlv>, b: seq<Tlv>, r: Removal, exclude: seq<Tlv>)
    requires forall k | 0 <= k < |a| :: TlvClean(a[k], r, exclude)
    requires forall t | t in b :: TlvClean(t, r, exclude)
    ensures forall k | 0 <= k < |a + b| :: TlvClean((a + b)[k], r, exclude)
  {
    forall k | 0 <= k < |a + b| ensures TlvClean((a + b)[k], r, exclude) {
      if k >= |a| {
        assert (a + b)[k] in b;
      }
    }
  }

  lemma ContextsInRangeConcat(a: seq<Tlv>, b: seq<Tlv>)
    requires ContextsInRange(a) && forall t | t in b :: TlvContextsInRange(t)
    ensures ContextsInRange(a + b)
  {
    forall k | 0 <= k < |a + b| ensures TlvContextsInRange((a + b)[k]) {
      if k >= |a| {
        assert (a + b)[k] in b;
      }
    }
  }

  lemma ActionsInRangeConcat(a: seq<ContextAction>, b: seq<ContextAction>)
    requires ActionsInRange(a) && ActionsInRange(b)
    ensures ActionsInRange(a + b)
  {
    forall k | 0 <= k < |a + b| ensures ActionInRange((a + b)[k]) {
      if k >= |a| {
        assert (a + b)[k] == b[k - |a|];
      }
    }
  }

  // ---------------------------------------------------------------------
  // What RemoveContext leaves
  // ---------------------------------------------------------------------

  predicate HoldsContext(subs: seq<SubTlv>, id: nat)
  {
    exists k | 0 <= k < |subs| :: subs[k].Context? && subs[k].contextId as nat == id
  }

  lemma {:induction false} ContextRemovedSubsFacts(subs: seq<SubTlv>, id: nat)
    ensures SubTlvsSize(ContextRemovedSubs(subs, id)) <= SubTlvsSize(subs)
    ensures !HoldsContext(ContextRemovedSubs(subs, id), id)
    ensures SubsContextsInRange(subs) ==> SubsContextsInRange(ContextRemovedSubs(subs, id))
  {
    if subs != [] {
      var n := |subs| - 1;
      var front := ContextRemovedSubs(subs[..n], id);
      var last := if subs[n].Context? && subs[n].contextId as nat == id then [] else [subs[n]];
      ContextRemovedSubsFacts(subs[..n], id);
      assert subs == subs[..n] + [subs[n]];
      SubTlvsSizeAppend(subs[..n], subs[n]);
      SubTlvsSizeConcat(front, last);
      assert SubTlvsSize(last) <= SubTlvSize(subs[n]);
      forall k | 0 <= k < |front + last|
        ensures !((front + last)[k].Context? && (front + last)[k].contextId as nat == id)
      {
        if k < |front| {
          assert (front + last)[k] == front[k];
        }
      }
      assert SubsContextsInRange(subs) ==> SubsContextsInRange(subs[..n]);
    }
  }

  /**
   * RemoveContext never grows the Network Data, leaves no Context sub-TLV
   * of that ID, keeps the other context IDs in range, and leaves no Prefix
   * TLV without sub-TLVs.
   */
  lemma {:induction false} ContextRemovedFacts(tlvs: seq<Tlv>, id: nat)
    ensures TlvsSize(ContextRemoved(tlvs, id)) <= TlvsSize(tlvs)
    ensures forall k | 0 <= k < |ContextRemoved(tlvs, id)| ::
              ContextRemoved(tlvs, id)[k].Prefix? ==>
                !HoldsContext(ContextRemoved(tlvs, id)[k].subTlvs, id) && ContextRemoved(tlvs, id)[k].subTlvs != []
    ensures ContextsInRange(tlvs) ==> ContextsInRange(ContextRemoved(tlvs, id))
  {
    if tlvs != [] {
      var n := |tlvs| - 1;
      var t := tlvs[n];
      var front := ContextRemoved(tlvs[..n], id);
      var last := if t.Prefix? then UpdatedTlv(WithSubTlvs(t, ContextRemovedSubs(t.subTlvs, id))) else [t];
      ContextRemovedFacts(tlvs[..n], id);
      assert tlvs == tlvs[..n] + [tlvs[n]];
      TlvsSizeAppend(tlvs[..n], t);
      TlvsSizeConcat(front, last);
      if t.Prefix? {
        ContextRemovedSubsFacts(t.subTlvs, id);
        WithSubTlvsSize(t, ContextRemovedSubs(t.subTlvs, id));
        UpdatedTlvFacts(WithSubTlvs(t, ContextRemovedSubs(t.subTlvs, id)));
      } else {
        assert TlvsSize(last) == TlvSize(t);
      }
      assert ContextRemoved(tlvs, id) == front + last;
      ContextFreeConcat(front, last, id);
      assert ContextsInRange(tlvs) ==> ContextsInRange(tlvs[..n]) && TlvContextsInRange(t);
      if ContextsInRange(tlvs) {
        ContextsInRangeConcat(front, last);
      }
    }
  }

  lemma ContextFreeConcat(a: seq<Tlv>, b: seq<Tlv>, id: nat)
    requires forall k | 0 <= k < |a| :: a[k].Prefix? ==> !HoldsContext(a[k].subTlvs, id) && a[k].subTlvs != []
    requires forall t | t in b :: t.Prefix? ==> !HoldsContext(t.subTlvs, id) && t.subTlvs != []
    ensures forall k | 0 <= k < |a + b| ::
              (a + b)[k].Prefix? ==> !HoldsContext((a + b)[k].subTlvs, id) && (a + b)[k].subTlvs != []
  {
    forall k | 0 <= k < |a + b|
      ensures (a + b)[k].Prefix? ==> !HoldsContext((a + b)[k].subTlvs, id) && (a + b)[k].subTlvs != []
    {
      if k >= |a| {
        assert (a + b)[k] in b;
      }
    }
  }

  /** No Prefix TLV carries a Context sub-TLV with the ID. */
  predicate NoPrefixHolds(tlvs: seq<Tlv>, id: nat)
  {
    forall k | 0 <= k < |tlvs| :: tlvs[k].Prefix? ==> !HoldsContext(tlvs[k].subTlvs, id)
  }

  lemma HoldsContextConcat(a: seq<SubTlv>, b: seq<SubTlv>, id: nat)
    ensures HoldsContext(a + b, id) <==> HoldsContext(a, id) || HoldsContext(b, id)
  {
    if HoldsContext(a + b, id) {
      var k :| 0 <= k < |a + b| && (a + b)[k].Context? && (a + b)[k].contextId as nat == id;
      if k < |a| {
        assert a[k] == (a + b)[k];
      } else {
        assert b[k - |a|] == (a + b)[k];
      }
    }
    if HoldsContext(a, id) {
      var k :| 0 <= k < |a| && a[k].Context? && a[k].contextId as nat == id;
      assert (a + b)[k] == a[k];
    }
    if HoldsContext(b, id) {
      var k :| 0 <= k < |b| && b[k].Context? && b[k].contextId as nat == id;
      assert (a + b)[|a| + k] == b[k];
    }
  }

  /** Removing one context ID keeps every other context ID of the sub-TLVs, and adds none. */
  lemma {:induction false} ContextRemovedSubsKeeps(subs: seq<SubTlv>, id: nat, other: nat)
    ensures HoldsContext(ContextRemovedSubs(subs, id), other) <==> other != id && HoldsContext(subs, other)
  {
    if subs != [] {
      var n := |subs| - 1;
      var last := if subs[n].Context? && subs[n].contextId as nat == id then [] else [subs[n]];
      ContextRemovedSubsKeeps(subs[..n], id, other);
      assert subs == subs[..n] + [subs[n]];
      HoldsContextConcat(ContextRemovedSubs(subs[..n], id), last, other);
      HoldsContextConcat(subs[..n], [subs[n]], other);
      ContextRemovedSubsFacts(subs, id);
    }
  }

  /** RemoveContext of one ID gives back no Prefix TLV a context ID that none carried. */
  lemma {:induction false} ContextRemovedKeepsFree(tlvs: seq<Tlv>, id: nat, other: nat)
    requires NoPrefixHolds(tlvs, other)
    ensures NoPrefixHolds(ContextRemoved(tlvs, id), other)
  {
    if tlvs != [] {
      var n := |tlvs| - 1;
      var t := tlvs[n];
      var front := ContextRemoved(tlvs[..n], id);
      var last := if t.Prefix? then UpdatedTlv(WithSubTlvs(t, ContextRemovedSubs(t.subTlvs, id))) else [t];
      assert NoPrefixHolds(tlvs[..n], other) by {
        forall k | 0 <= k < n ensures tlvs[..n][k] == tlvs[k] { }
      }
      ContextRemovedKeepsFree(tlvs[..n], id, other);
      if t.Prefix? {
        assert !HoldsContext(t.subTlvs, other);
        ContextRemovedSubsKeeps(t.subTlvs, id, other);
      }
      assert NoPrefixHolds(last, other);
      forall k | 0 <= k < |front + last| && (front + last)[k].Prefix?
        ensures !HoldsContext((front + last)[k].subTlvs, other)
      {
        if k >= |front| {
          assert (front + last)[k] == last[k - |front|];
        }
      }
    }
  }

  /** RemoveContext for each ID in turn, as the leader's timer sweep calls it. */
  function ContextsRemoved(tlvs: seq<Tlv>, ids: seq<nat>): seq<Tlv>
  {
    if ids == [] then tlvs
    else
      var n := |ids| - 1;
      ContextRemoved(ContextsRemoved(tlvs, ids[..n]), ids[n])
  }

  lemma ContextsRemovedStep(tlvs: seq<Tlv>, ids: seq<nat>, id: nat)
    ensures ContextsRemoved(tlvs, ids + [id]) == ContextRemoved(ContextsRemoved(tlvs, ids), id)
  {
    assert (ids + [id])[..|ids|] == ids;
  }

  /**
   * After RemoveContext of several IDs no Prefix TLV carries any of them;
   * the Network Data has not grown and its context IDs stay in range.
   */
  lemma {:induction false} ContextsRemovedFrees(tlvs: seq<Tlv>, ids: seq<nat>)
    ensures forall k | 0 <= k < |ids| :: NoPrefixHolds(ContextsRemoved(tlvs, ids), ids[k])
    ensures TlvsSize(ContextsRemoved(tlvs, ids)) <= TlvsSize(tlvs)
    ensures ContextsInRange(tlvs) ==> ContextsInRange(ContextsRemoved(tlvs, ids))
  {
    if ids != [] {
      var n := |ids| - 1;
      var before := ContextsRemoved(tlvs, ids[..n]);
      ContextsRemovedFrees(tlvs, ids[..n]);
      ContextRemovedFacts(before, ids[n]);
      forall k | 0 <= k < |ids|
        ensures NoPrefixHolds(ContextsRemoved(tlvs, ids), ids[k])
      {
        if k < n {
          assert ids[k] == ids[..n][k];
          ContextRemovedKeepsFree(before, ids[n], ids[k]);
        }
      }
    }
  }

  // ---------------------------------------------------------------------
  // What the additions leave
  // ---------------------------------------------------------------------

  /** The entry is in the first Has Route sub-TLV with this stable flag: what ContainsMatchingEntry checks. */
  predicate HoldsRoute(subs: seq<SubTlv>, stable: bool, entry: HasRouteEntry)
  {
    var i := FindSub(subs, HasRouteKind, Some(stable));
    i.Some? && entry in subs[i.value].routes
  }

  /**
   * AddHasRoute leaves the entry where ContainsMatchingEntry finds it, is
   * idempotent, grows the sub-TLVs by a Has Route sub-TLV with one entry,
   * by one entry, or not at all, and touches no context.
   */
  lemma HasRouteAddedFacts(subs: seq<SubTlv>, entry: HasRouteEntry, stable: bool)
    ensures HoldsRoute(HasRouteAdded(subs, entry, stable), stable, entry)
    ensures HasRouteAdded(HasRouteAdded(subs, entry, stable), entry, stable) == HasRouteAdded(subs, entry, stable)
    ensures HoldsRoute(subs, stable, entry) <==> HasRouteAdded(subs, entry, stable) == subs
    ensures SubTlvsSize(HasRouteAdded(subs, entry, stable))
            == SubTlvsSize(subs)
               + (if FindSub(subs, HasRouteKind, Some(stable)).None? then TlvHeaderSize + HasRouteEntrySize
                  else if HoldsRoute(subs, stable, entry) then 0 else HasRouteEntrySize)
    ensures SubsContextsInRange(subs) ==> SubsContextsInRange(HasRouteAdded(subs, entry, stable))
  {
    var out := HasRouteAdded(subs, entry, stable);
    var sub := HasRoute(stable, [entry]);
    match FindSub(subs, HasRouteKind, Some(stable))
    case None =>
      FindSubAppend(subs, sub, HasRouteKind, Some(stable));
      FindSubAppend(out, HasRoute(stable, out[|subs|].routes + [entry]), HasRouteKind, Some(stable));
      SubTlvsSizeAppend(subs, sub);
      assert out != subs by { assert |out| != |subs|; }
    case Some(i) =>
      if entry !in subs[i].routes {
        var updated := HasRoute(stable, subs[i].routes + [entry]);
        FindSubUpdate(subs, i, updated, HasRouteKind, Some(stable));
        SubTlvsSizeUpdate(subs, i, updated);
        assert out[i] == updated && entry in updated.routes;
        assert out != subs by { assert out[i] != subs[i]; }
      }
  }

  /** The entry is in the first Border Router sub-TLV with this stable flag. */
  predicate HoldsRouter(subs: seq<SubTlv>, stable: bool, entry: BorderRouterEntry)
  {
    var i := FindSub(subs, BorderRouterKind, Some(stable));
    i.Some? && entry in subs[i.value].routers
  }

  lemma EnsuredFacts(subs: seq<SubTlv>, kind: SubKind, stable: Option<bool>, sub: SubTlv,
                     otherKind: SubKind, otherStable: Option<bool>)
    requires Selects(sub, kind, stable) && !Selects(sub, otherKind, otherStable)
    ensures var e := Ensured(subs, kind, stable, sub);
            e.1 < |e.0| && FindSub(e.0, kind, stable) == Some(e.1)
            && FindSub(e.0, otherKind, otherStable) == FindSub(subs, otherKind, otherStable)
            && SubTlvsSize(e.0) == SubTlvsSize(subs) + (if FindSub(subs, kind, stable).None? then SubTlvSize(sub) else 0)
            && |subs| <= |e.0| && (forall k | 0 <= k < |subs| :: e.0[k] == subs[k])
            && (FindSub(subs, kind, stable).None? ==> e.0[e.1] == sub)
  {
    if FindSub(subs, kind, stable).None? {
      FindSubAppend(subs, sub, kind, stable);
      FindSubAppend(subs, sub, otherKind, otherStable);
      SubTlvsSizeAppend(subs, sub);
    }
  }

  lemma EnsuredInRange(subs: seq<SubTlv>, kind: SubKind, stable: Option<bool>, sub: SubTlv)
    requires Selects(sub, kind, stable) && SubsContextsInRange(subs)
    requires FindSub(subs, kind, stable).None? && sub.Context? ==> IsContextId(sub.contextId as nat)
    ensures SubsContextsInRange(Ensured(subs, kind, stable, sub).0)
  {
    if FindSub(subs, kind, stable).None? {
      var e := subs + [sub];
      assert forall k | 0 <= k < |e| :: e[k] == if k < |subs| then subs[k] else sub;
    }
  }

  /** The last stage fails only with NoBufs, marks the context's ID in use, and fits in its room. */
  lemma EntryAddedFits(subs: seq<SubTlv>, brIndex: nat, ctxIndex: nat, entry: BorderRouterEntry, stable: bool,
                       room: int)
    requires brIndex < |subs| && ctxIndex < |subs| && subs[brIndex].BorderRouter? && subs[ctxIndex].Context?
    ensures var res := EntryAdded(subs, brIndex, ctxIndex, entry, stable, room);
            res.error in {NoError, NoBufs}
            && res.inUse == Some(subs[ctxIndex].contextId as nat)
            && (room >= 0 ==> SubTlvsSize(res.subs) <= SubTlvsSize(subs) + room)
  {
    var c := subs[ctxIndex];
    var newCtx := Context(c.stable || stable, true, c.contextId, c.contextLength);
    var marked := subs[ctxIndex := newCtx];
    SubTlvsSizeUpdate(subs, ctxIndex, newCtx);
    var routers := marked[brIndex].routers;
    if entry !in routers && room >= BorderRouterEntrySize {
      var newBr := BorderRouter(stable, routers + [entry]);
      SubTlvsSizeUpdate(marked, brIndex, newBr);
    }
  }

  /** The last stage writes no Context sub-TLV with an ID out of range. */
  lemma EntryAddedInRange(subs: seq<SubTlv>, brIndex: nat, ctxIndex: nat, entry: BorderRouterEntry, stable: bool,
                          room: int)
    requires brIndex < |subs| && ctxIndex < |subs| && subs[brIndex].BorderRouter? && subs[ctxIndex].Context?
    requires SubsContextsInRange(subs)
    ensures SubsContextsInRange(EntryAdded(subs, brIndex, ctxIndex, entry, stable, room).subs)
  {
    var c := subs[ctxIndex];
    var marked := subs[ctxIndex := Context(c.stable || stable, true, c.contextId, c.contextLength)];
    assert SubsContextsInRange(marked);
  }

  /**
   * On success the last stage leaves the entry where ContainsMatchingEntry
   * finds it, beside a first context that compresses and is stable when
   * the entry is.
   */
  lemma EntryAddedHolds(subs: seq<SubTlv>, brIndex: nat, ctxIndex: nat, entry: BorderRouterEntry, stable: bool,
                        room: int)
    requires FindSub(subs, BorderRouterKind, Some(stable)) == Some(brIndex)
    requires FindSub(subs, ContextKind, None) == Some(ctxIndex)
    ensures var res := EntryAdded(subs, brIndex, ctxIndex, entry, stable, room);
            res.error == NoError ==>
              HoldsRouter(res.subs, stable, entry)
              && FindSub(res.subs, ContextKind, None) == Some(ctxIndex)
              && res.subs[ctxIndex].compress && (stable ==> res.subs[ctxIndex].stable)
              && res.subs[ctxIndex].contextId == subs[ctxIndex].contextId
  {
    var c := subs[ctxIndex];
    var newCtx := Context(c.stable || stable, true, c.contextId, c.contextLength);
    var marked := subs[ctxIndex := newCtx];
    FindSubUpdate(subs, ctxIndex, newCtx, ContextKind, None);
    FindSubUpdate(subs, ctxIndex, newCtx, BorderRouterKind, Some(stable));
    var routers := marked[brIndex].routers;
    if entry !in routers && room >= BorderRouterEntrySize {
      var newBr := BorderRouter(stable, routers + [entry]);
      FindSubUpdate(marked, brIndex, newBr, ContextKind, None);
      FindSubUpdate(marked, brIndex, newBr, BorderRouterKind, Some(stable));
      assert marked[brIndex := newBr][ctxIndex] == newCtx;
    }
  }

  /**
   * AddBorderRouter fails with NotFound, changing nothing, exactly when a
   * context is needed and no ID is free, and whatever it writes fits in the
   * room it was given.
   */
  lemma BorderRouterAddedFits(subs: seq<SubTlv>, prefixLength: uint8, entry: BorderRouterEntry, stable: bool,
                              freeId: Option<nat>, room: int)
    requires freeId.Some? ==> IsContextId(freeId.value)
    requires room >= 0
    ensures var res := BorderRouterAdded(subs, prefixLength, entry, stable, freeId, room);
            res.error in {NoError, NoBufs, NotFound}
            && (res.error == NotFound <==> FindSub(subs, ContextKind, None).None? && freeId.None?)
            && (res.error == NotFound ==> res.subs == subs && res.inUse.None?)
            && SubTlvsSize(res.subs) <= SubTlvsSize(subs) + room
  {
    var res := BorderRouterAdded(subs, prefixLength, entry, stable, freeId, room);
    var hasBr := FindSub(subs, BorderRouterKind, Some(stable)).Some?;
    var hasCtx := FindSub(subs, ContextKind, None).Some?;
    if !hasCtx && freeId.None? {
      assert res == AddResult(NotFound, subs, None);
    } else if !hasBr && room < TlvHeaderSize + BorderRouterEntrySize + (if hasCtx then 0 else ContextTlvSize) {
      assert res == AddResult(NoBufs, subs, None);
    } else {
      var brSub := BorderRouter(stable, []);
      var withBr := Ensured(subs, BorderRouterKind, Some(stable), brSub);
      EnsuredFacts(subs, BorderRouterKind, Some(stable), brSub, ContextKind, None);
      var room1 := if hasBr then room else room - TlvHeaderSize;
      if !hasCtx && room1 < BorderRouterEntrySize + ContextTlvSize {
        assert res == AddResult(NoBufs, withBr.0, None);
      } else {
        var id := if hasCtx then 0 else freeId.value;
        var ctxSub := Context(false, false, id as uint8, prefixLength);
        var withCtx := Ensured(withBr.0, ContextKind, None, ctxSub);
        EnsuredFacts(withBr.0, ContextKind, None, ctxSub, BorderRouterKind, Some(stable));
        var room2 := if hasCtx then room1 else room1 - ContextTlvSize;
        assert res == EntryAdded(withCtx.0, withBr.1, withCtx.1, entry, stable, room2);
        EntryAddedFits(withCtx.0, withBr.1, withCtx.1, entry, stable, room2);
      }
    }
  }

  /**
   * After a successful AddBorderRouter the entry is where
   * ContainsMatchingEntry finds it, and the prefix's first context has its
   * compress flag set, is stable when the entry is, and has the ID that was
   * marked in use.
   */
  lemma BorderRouterAddedHolds(subs: seq<SubTlv>, prefixLength: uint8, entry: BorderRouterEntry, stable: bool,
                               freeId: Option<nat>, room: int)
    requires freeId.Some? ==> IsContextId(freeId.value)
    ensures var res := BorderRouterAdded(subs, prefixLength, entry, stable, freeId, room);
            res.error == NoError ==>
              HoldsRouter(res.subs, stable, entry)
              && var c := FindSub(res.subs, ContextKind, None);
                 c.Some? && res.subs[c.value].compress && (stable ==> res.subs[c.value].stable)
                 && res.inUse == Some(res.subs[c.value].contextId as nat)
  {
    var res := BorderRouterAdded(subs, prefixLength, entry, stable, freeId, room);
    var hasBr := FindSub(subs, BorderRouterKind, Some(stable)).Some?;
    var hasCtx := FindSub(subs, ContextKind, None).Some?;
    if !hasCtx && freeId.None? {
      assert res == AddResult(NotFound, subs, None);
    } else if !hasBr && room < TlvHeaderSize + BorderRouterEntrySize + (if hasCtx then 0 else ContextTlvSize) {
      assert res == AddResult(NoBufs, subs, None);
    } else {
      var brSub := BorderRouter(stable, []);
      var withBr := Ensured(subs, BorderRouterKind, Some(stable), brSub);
      EnsuredFacts(subs, BorderRouterKind, Some(stable), brSub, ContextKind, None);
      var room1 := if hasBr then room else room - TlvHeaderSize;
      if !hasCtx && room1 < BorderRouterEntrySize + ContextTlvSize {
        assert res == AddResult(NoBufs, withBr.0, None);
      } else {
        var id := if hasCtx then 0 else freeId.value;
        var ctxSub := Context(false, false, id as uint8, prefixLength);
        var withCtx := Ensured(withBr.0, ContextKind, None, ctxSub);
        EnsuredFacts(withBr.0, ContextKind, None, ctxSub, BorderRouterKind, Some(stable));
        var room2 := if hasCtx then room1 else room1 - ContextTlvSize;
        assert res == EntryAdded(withCtx.0, withBr.1, withCtx.1, entry, stable, room2);
        EntryAddedFits(withCtx.0, withBr.1, withCtx.1, entry, stable, room2);
        EntryAddedHolds(withCtx.0, withBr.1, withCtx.1, entry, stable, room2);
      }
    }
  }

  /**
   * AddBorderRouter only creates a context with the free ID, and marks an
   * in-range ID in use.
   */
  lemma BorderRouterAddedInRange(subs: seq<SubTlv>, prefixLength: uint8, entry: BorderRouterEntry, stable: bool,
                                 freeId: Option<nat>, room: int)
    requires freeId.Some? ==> IsContextId(freeId.value)
    requires SubsContextsInRange(subs)
    ensures var res := BorderRouterAdded(subs, prefixLength, entry, stable, freeId, room);
            SubsContextsInRange(res.subs) && (res.inUse.Some? ==> IsContextId(res.inUse.value))
  {
    var res := BorderRouterAdded(subs, prefixLength, entry, stable, freeId, room);
    var hasBr := FindSub(subs, BorderRouterKind, Some(stable)).Some?;
    var hasCtx := FindSub(subs, ContextKind, None).Some?;
    if !hasCtx && freeId.None? {
      assert res == AddResult(NotFound, subs, None);
    } else if !hasBr && room < TlvHeaderSize + BorderRouterEntrySize + (if hasCtx then 0 else ContextTlvSize) {
      assert res == AddResult(NoBufs, subs, None);
    } else {
      var brSub := BorderRouter(stable, []);
      var withBr := Ensured(subs, BorderRouterKind, Some(stable), brSub);
      EnsuredFacts(subs, BorderRouterKind, Some(stable), brSub, ContextKind, None);
      var room1 := if hasBr then room else room - TlvHeaderSize;
      if !hasCtx && room1 < BorderRouterEntrySize + ContextTlvSize {
        assert res == AddResult(NoBufs, withBr.0, None);
      } else {
        var id := if hasCtx then 0 else freeId.value;
        var ctxSub := Context(false, false, id as uint8, prefixLength);
        var withCtx := Ensured(withBr.0, ContextKind, None, ctxSub);
        EnsuredFacts(withBr.0, ContextKind, None, ctxSub, BorderRouterKind, Some(stable));
        var room2 := if hasCtx then room1 else room1 - ContextTlvSize;
        assert res == EntryAdded(withCtx.0, withBr.1, withCtx.1, entry, stable, room2);
        EnsuredInRange(subs, BorderRouterKind, Some(stable), brSub);
        EnsuredInRange(withBr.0, ContextKind, None, ctxSub);
        EntryAddedFits(withCtx.0, withBr.1, withCtx.1, entry, stable, room2);
        EntryAddedInRange(withCtx.0, withBr.1, withCtx.1, entry, stable, room2);
      }
    }
  }

  /**
   * AddServer leaves the Server sub-TLV where ContainsMatchingServer finds
   * it, is idempotent, and appends at most the one sub-TLV.
   */
  lemma ServerAddedFacts(subs: seq<SubTlv>, server: SubTlv)
    ensures server in ServerAdded(subs, server)
    ensures ServerAdded(ServerAdded(subs, server), server) == ServerAdded(subs, server)
    ensures SubTlvsSize(ServerAdded(subs, server)) == SubTlvsSize(subs) + (if server in subs then 0 else SubTlvSize(server))
  {
    SubTlvsSizeAppend(subs, server);
  }

  /** No two Commissioning Data TLVs. */
  predicate AtMostOneCommissioningData(tlvs: seq<Tlv>)
  {
    forall i, j | 0 <= i < j < |tlvs| :: !(tlvs[i].CommissioningData? && tlvs[j].CommissioningData?)
  }

  /** SetCommissioningData trades the old TLV's size for the new one's. */
  lemma CommissioningDataSetSize(tlvs: seq<Tlv>, data: seq<uint8>)
    ensures var found := FindCommissioningData(tlvs);
            TlvsSize(CommissioningDataSet(tlvs, data)) + (if found.Some? then TlvSize(tlvs[found.value]) else 0)
            == TlvsSize(tlvs) + TlvHeaderSize + |data|
  {
    var found := FindCommissioningData(tlvs);
    if found.Some? {
      TlvsSizeRemove(tlvs, found.value);
    }
    TlvsSizeAppend(WithoutCommissioningData(tlvs), CommissioningData(false, data));
  }

  /**
   * The leader keeps a single Commissioning Data TLV: SetCommissioningData
   * keeps there being at most one, and FindCommissioningData then finds the
   * new data, last.
   */
  lemma CommissioningDataSetSingle(tlvs: seq<Tlv>, data: seq<uint8>)
    requires AtMostOneCommissioningData(tlvs)
    ensures var out := CommissioningDataSet(tlvs, data);
            AtMostOneCommissioningData(out) && FindCommissioningData(out) == Some(|out| - 1)
            && out[|out| - 1] == CommissioningData(false, data)
  {
    var kept := WithoutCommissioningData(tlvs);
    var out := kept + [CommissioningData(false, data)];
    assert forall k | 0 <= k < |kept| :: !kept[k].CommissioningData?;
    assert forall k | 0 <= k < |out| - 1 :: out[k] == kept[k];
    FindCommissioningDataLast(kept, CommissioningData(false, data));
  }

  /** SetCommissioningData touches no Prefix TLV, so the context IDs stay in range. */
  lemma CommissioningDataSetInRange(tlvs: seq<Tlv>, data: seq<uint8>)
    requires ContextsInRange(tlvs)
    ensures ContextsInRange(CommissioningDataSet(tlvs, data))
  {
    var kept := WithoutCommissioningData(tlvs);
    assert ContextsInRange(kept);
  }

  lemma {:induction false} FindCommissioningDataLast(tlvs: seq<Tlv>, tlv: Tlv)
    requires tlv.CommissioningData? && forall k | 0 <= k < |tlvs| :: !tlvs[k].CommissioningData?
    ensures FindCommissioningData(tlvs + [tlv]) == Some(|tlvs|)
  {
    if tlvs != [] {
      assert (tlvs + [tlv])[1..] == tlvs[1..] + [tlv];
      FindCommissioningDataLast(tlvs[1..], tlv);
    } else {
      assert tlvs + [tlv] == [tlv];
    }
  }
}
