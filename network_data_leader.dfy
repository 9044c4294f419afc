/**
 * Leader (the FTD leader's Network Data): the loops that edit the Network
 * Data in place, and the Leader class that owns the TLVs, the two version
 * numbers and the context IDs. Each loop keeps a cursor over a sequence it
 * shrinks as it goes, as the source moves a pointer over a buffer it
 * shrinks, and is proved to reach the value the matching function of
 * NetworkDataLeaderEdits gives.
 */
module NetworkDataLeader {
  import opened Common
  import opened NetworkData
  import opened NetworkDataContextIds
  import opened NetworkDataLeaderEdits

  // ---------------------------------------------------------------------
  // Cursor steps
  // ---------------------------------------------------------------------

  // Each loop below keeps a cursor j into the sequence it edits: the part
  // before j is the specification function of the elements already
  // visited (a ghost count k of the original ones), the part from j on is
  // the original's untouched rest. A *Progress predicate states this, a
  // *Step lemma advances it by one element and a *Done lemma reads off the
  // final value.

  /**
   * One cursor step: the element under the cursor becomes `piece` (nothing,
   * itself or one replacement) and the finished prefix grows to `next`.
   */
  lemma CursorStep<T>(done: seq<T>, rest: seq<T>, piece: seq<T>, next: seq<T>)
    requires rest != [] && |piece| <= 1 && next == done + piece
    ensures (done + rest)[|done|] == rest[0]
    ensures piece == [] ==> RemoveAt(done + rest, |done|) == next + rest[1..] && |next| == |done|
    ensures |piece| == 1 ==> (done + rest)[|done| := piece[0]] == next + rest[1..] && |next| == |done| + 1
    ensures piece == [rest[0]] ==> done + rest == next + rest[1..]
  {
    assert (done + rest)[..|done|] == done;
    assert (done + rest)[|done| + 1..] == rest[1..];
    if piece == [rest[0]] {
      assert rest == [rest[0]] + rest[1..];
    }
  }

  ghost predicate RoutesProgress(routes: seq<HasRouteEntry>, stable: bool, r: Removal, exclude: Option<Tlv>,
                                 flags: ChangedFlags, k: nat, cur: seq<HasRouteEntry>, j: nat, fl: ChangedFlags)
  {
    k <= |routes| && cur == KeptRoutes(routes[..k], stable, r, exclude) + routes[k..]
    && j == |KeptRoutes(routes[..k], stable, r, exclude)| && fl == RoutesFlags(flags, routes[..k], stable, r, exclude)
  }

  lemma RoutesStep(routes: seq<HasRouteEntry>, stable: bool, r: Removal, exclude: Option<Tlv>,
                   flags: ChangedFlags, k: nat, cur: seq<HasRouteEntry>, j: nat, fl: ChangedFlags)
    requires RoutesProgress(routes, stable, r, exclude, flags, k, cur, j, fl) && j < |cur|
    ensures k < |routes|
    ensures RoutesProgress(routes, stable, r, exclude, flags, k + 1,
                           if RouteRemovable(cur[j], stable, r, exclude) then RemoveAt(cur, j) else cur,
                           if RouteRemovable(cur[j], stable, r, exclude) then j else j + 1,
                           if RouteRemovable(cur[j], stable, r, exclude) then fl.Update(stable) else fl)
  {
    assert routes[..k + 1][..k] == routes[..k];
    assert routes[k..][1..] == routes[k + 1..];
    var piece := if RouteRemovable(routes[k], stable, r, exclude) then [] else [routes[k]];
    CursorStep(KeptRoutes(routes[..k], stable, r, exclude), routes[k..], piece,
               KeptRoutes(routes[..k + 1], stable, r, exclude));
  }

  lemma RoutesDone(routes: seq<HasRouteEntry>, stable: bool, r: Removal, exclude: Option<Tlv>,
                   flags: ChangedFlags, k: nat, cur: seq<HasRouteEntry>, j: nat, fl: ChangedFlags)
    requires RoutesProgress(routes, stable, r, exclude, flags, k, cur, j, fl) && j == |cur|
    ensures cur == KeptRoutes(routes, stable, r, exclude) && fl == RoutesFlags(flags, routes, stable, r, exclude)
  {
    assert routes[..k] == routes;
  }

  ghost predicate RoutersProgress(routers: seq<BorderRouterEntry>, stable: bool, r: Removal, exclude: Option<Tlv>,
                                  flags: ChangedFlags, k: nat, cur: seq<BorderRouterEntry>, j: nat, fl: ChangedFlags)
  {
    k <= |routers| && cur == KeptRouters(routers[..k], stable, r, exclude) + routers[k..]
    && j == |KeptRouters(routers[..k], stable, r, exclude)| && fl == RoutersFlags(flags, routers[..k], stable, r, exclude)
  }

  lemma RoutersStep(routers: seq<BorderRouterEntry>, stable: bool, r: Removal, exclude: Option<Tlv>,
                    flags: ChangedFlags, k: nat, cur: seq<BorderRouterEntry>, j: nat, fl: ChangedFlags)
    requires RoutersProgress(routers, stable, r, exclude, flags, k, cur, j, fl) && j < |cur|
    ensures k < |routers|
    ensures RoutersProgress(routers, stable, r, exclude, flags, k + 1,
                           if RouterRemovable(cur[j], stable, r, exclude) then RemoveAt(cur, j) else cur,
                           if RouterRemovable(cur[j], stable, r, exclude) then j else j + 1,
                           if RouterRemovable(cur[j], stable, r, exclude) then fl.Update(stable) else fl)
  {
    assert routers[..k + 1][..k] == routers[..k];
    assert routers[k..][1..] == routers[k + 1..];
    var piece := if RouterRemovable(routers[k], stable, r, exclude) then [] else [routers[k]];
    CursorStep(KeptRouters(routers[..k], stable, r, exclude), routers[k..], piece,
               KeptRouters(routers[..k + 1], stable, r, exclude));
  }

  lemma RoutersDone(routers: seq<BorderRouterEntry>, stable: bool, r: Removal, exclude: Option<Tlv>,
                    flags: ChangedFlags, k: nat, cur: seq<BorderRouterEntry>, j: nat, fl: ChangedFlags)
    requires RoutersProgress(routers, stable, r, exclude, flags, k, cur, j, fl) && j == |cur|
    ensures cur == KeptRouters(routers, stable, r, exclude) && fl == RoutersFlags(flags, routers, stable, r, exclude)
  {
    assert routers[..k] == routers;
  }

  ghost predicate ServersProgress(subs: seq<SubTlv>, r: Removal, exclude: Option<Tlv>,
                                  flags: ChangedFlags, k: nat, cur: seq<SubTlv>, j: nat, fl: ChangedFlags)
  {
    k <= |subs| && cur == KeptServers(subs[..k], r, exclude) + subs[k..]
    && j == |KeptServers(subs[..k], r, exclude)| && fl == ServersFlags(flags, subs[..k], r, exclude)
  }

  lemma ServersStep(subs: seq<SubTlv>, r: Removal, exclude: Option<Tlv>,
                    flags: ChangedFlags, k: nat, cur: seq<SubTlv>, j: nat, fl: ChangedFlags)
    requires ServersProgress(subs, r, exclude, flags, k, cur, j, fl) && j < |cur|
    ensures k < |subs|
    ensures ServersProgress(subs, r, exclude, flags, k + 1,
                           if ServerRemovable(cur[j], r, exclude) then RemoveAt(cur, j) else cur,
                           if ServerRemovable(cur[j], r, exclude) then j else j + 1,
                           if ServerRemovable(cur[j], r, exclude) then fl.Update(cur[j].stable) else fl)
  {
    assert subs[..k + 1][..k] == subs[..k];
    assert subs[k..][1..] == subs[k + 1..];
    var piece := if ServerRemovable(subs[k], r, exclude) then [] else [subs[k]];
    CursorStep(KeptServers(subs[..k], r, exclude), subs[k..], piece, KeptServers(subs[..k + 1], r, exclude));
  }

  lemma ServersDone(subs: seq<SubTlv>, r: Removal, exclude: Option<Tlv>,
                    flags: ChangedFlags, k: nat, cur: seq<SubTlv>, j: nat, fl: ChangedFlags)
    requires ServersProgress(subs, r, exclude, flags, k, cur, j, fl) && j == |cur|
    ensures cur == KeptServers(subs, r, exclude) && fl == ServersFlags(flags, subs, r, exclude)
  {
    assert subs[..k] == subs;
  }

  ghost predicate PrunedProgress(subs: seq<SubTlv>, r: Removal, exclude: Option<Tlv>,
                                 flags: ChangedFlags, k: nat, cur: seq<SubTlv>, j: nat, fl: ChangedFlags)
  {
    k <= |subs| && cur == PrunedSubs(subs[..k], r, exclude) + subs[k..]
    && j == |PrunedSubs(subs[..k], r, exclude)| && fl == PrunedFlags(flags, subs[..k], r, exclude)
  }

  lemma PrunedStep(subs: seq<SubTlv>, r: Removal, exclude: Option<Tlv>,
                   flags: ChangedFlags, k: nat, cur: seq<SubTlv>, j: nat, fl: ChangedFlags)
    requires PrunedProgress(subs, r, exclude, flags, k, cur, j, fl) && j < |cur|
    ensures var piece := PrunedSub(cur[j], r, exclude);
            var fl' := SubFlags(fl, cur[j], r, exclude);
            |piece| <= 1
            && (piece == [] ==> PrunedProgress(subs, r, exclude, flags, k + 1, RemoveAt(cur, j), j, fl'))
            && (|piece| == 1 ==> PrunedProgress(subs, r, exclude, flags, k + 1, cur[j := piece[0]], j + 1, fl'))
  {
    assert subs[..k + 1][..k] == subs[..k];
    assert subs[k..][1..] == subs[k + 1..];
    CursorStep(PrunedSubs(subs[..k], r, exclude), subs[k..], PrunedSub(subs[k], r, exclude),
               PrunedSubs(subs[..k + 1], r, exclude));
  }

  lemma PrunedDone(subs: seq<SubTlv>, r: Removal, exclude: Option<Tlv>,
                   flags: ChangedFlags, k: nat, cur: seq<SubTlv>, j: nat, fl: ChangedFlags)
    requires PrunedProgress(subs, r, exclude, flags, k, cur, j, fl) && j == |cur|
    ensures cur == PrunedSubs(subs, r, exclude) && fl == PrunedFlags(flags, subs, r, exclude)
  {
    assert subs[..k] == subs;
  }

  ghost predicate ContextSubsProgress(subs: seq<SubTlv>, id: nat, k: nat, cur: seq<SubTlv>, j: nat)
  {
    k <= |subs| && cur == ContextRemovedSubs(subs[..k], id) + subs[k..] && j == |ContextRemovedSubs(subs[..k], id)|
  }

  lemma ContextSubsStep(subs: seq<SubTlv>, id: nat, k: nat, cur: seq<SubTlv>, j: nat)
    requires ContextSubsProgress(subs, id, k, cur, j) && j < |cur|
    ensures cur[j].Context? && cur[j].contextId as nat == id
            ==> ContextSubsProgress(subs, id, k + 1, RemoveAt(cur, j), j)
    ensures !(cur[j].Context? && cur[j].contextId as nat == id)
            ==> ContextSubsProgress(subs, id, k + 1, cur, j + 1)
  {
    assert subs[..k + 1][..k] == subs[..k];
    assert subs[k..][1..] == subs[k + 1..];
    CursorStep(ContextRemovedSubs(subs[..k], id), subs[k..],
               if subs[k].Context? && subs[k].contextId as nat == id then [] else [subs[k]],
               ContextRemovedSubs(subs[..k + 1], id));
  }

  lemma ContextSubsDone(subs: seq<SubTlv>, id: nat, k: nat, cur: seq<SubTlv>, j: nat)
    requires ContextSubsProgress(subs, id, k, cur, j) && j == |cur|
    ensures cur == ContextRemovedSubs(subs, id)
  {
    assert subs[..k] == subs;
  }

  /** RemoveRloc's cursor, with the flags and the context actions of the TLVs visited so far. */
  ghost predicate RlocProgress(orig: seq<Tlv>, r: Removal, exclude: seq<Tlv>, flags: ChangedFlags,
                               k: nat, cur: seq<Tlv>, j: nat, fl: ChangedFlags, actions: seq<ContextAction>)
  {
    k <= |orig| && cur == RlocRemoved(orig[..k], r, exclude) + orig[k..]
    && j == |RlocRemoved(orig[..k], r, exclude)| && fl == RlocRemovedFlags(flags, orig[..k], r, exclude)
    && actions == RlocRemovedActions(orig[..k], r, exclude)
  }

  lemma RlocStep(orig: seq<Tlv>, r: Removal, exclude: seq<Tlv>, flags: ChangedFlags,
                 k: nat, cur: seq<Tlv>, j: nat, fl: ChangedFlags, actions: seq<ContextAction>)
    requires RlocProgress(orig, r, exclude, flags, k, cur, j, fl, actions) && j < |cur|
    ensures ContextsInRange(orig) ==> TlvContextsInRange(cur[j])
    ensures var piece := RlocRemovedTlv(cur[j], r, exclude);
            var fl' := RlocRemovedTlvFlags(fl, cur[j], r, exclude);
            var actions' := actions + RlocRemovedTlvAction(cur[j], r, exclude);
            |piece| <= 1
            && (piece == [] ==> RlocProgress(orig, r, exclude, flags, k + 1, RemoveAt(cur, j), j, fl', actions'))
            && (|piece| == 1
                ==> RlocProgress(orig, r, exclude, flags, k + 1, cur[j := piece[0]], j + 1, fl', actions'))
  {
    assert orig[..k + 1][..k] == orig[..k];
    assert orig[k..][1..] == orig[k + 1..];
    CursorStep(RlocRemoved(orig[..k], r, exclude), orig[k..], RlocRemovedTlv(orig[k], r, exclude),
               RlocRemoved(orig[..k + 1], r, exclude));
  }

  lemma RlocDone(orig: seq<Tlv>, r: Removal, exclude: seq<Tlv>, flags: ChangedFlags,
                 k: nat, cur: seq<Tlv>, j: nat, fl: ChangedFlags, actions: seq<ContextAction>)
    requires RlocProgress(orig, r, exclude, flags, k, cur, j, fl, actions) && j == |cur|
    ensures cur == RlocRemoved(orig, r, exclude) && fl == RlocRemovedFlags(flags, orig, r, exclude)
    ensures actions == RlocRemovedActions(orig, r, exclude)
  {
    assert orig[..k] == orig;
  }

  /** The context-ID state after applying `actions` to the state (times0, timer0). */
  ghost predicate ContextsAfter(times: seq<uint32>, timer: Timer, times0: seq<uint32>, timer0: Timer,
                                actions: seq<ContextAction>, now: uint32, reuseDelay: uint32)
  {
    |times0| == IdCount && ActionsInRange(actions)
    && (times, timer) == ApplyContextActions(times0, timer0, actions, now, reuseDelay)
  }

  lemma ContextsAfterStep(times: seq<uint32>, timer: Timer, midTimes: seq<uint32>, midTimer: Timer,
                          times0: seq<uint32>, timer0: Timer, actions: seq<ContextAction>,
                          more: seq<ContextAction>, now: uint32, reuseDelay: uint32)
    requires ContextsAfter(midTimes, midTimer, times0, timer0, actions, now, reuseDelay)
    requires |more| <= 1 && ActionsInRange(more)
    requires (times, timer) == ApplyContextActions(midTimes, midTimer, more, now, reuseDelay)
    ensures ContextsAfter(times, timer, times0, timer0, actions + more, now, reuseDelay)
  {
    ApplyContextActionsAppend(times0, timer0, actions, more, now, reuseDelay);
  }

  /** RemoveContext's cursor over the TLVs. */
  ghost predicate RemoveContextProgress(orig: seq<Tlv>, id: nat, k: nat, cur: seq<Tlv>, j: nat)
  {
    k <= |orig| && cur == ContextRemoved(orig[..k], id) + orig[k..] && j == |ContextRemoved(orig[..k], id)|
  }

  lemma RemoveContextStep(orig: seq<Tlv>, id: nat, k: nat, cur: seq<Tlv>, j: nat)
    requires RemoveContextProgress(orig, id, k, cur, j) && j < |cur|
    ensures var t := cur[j];
            var piece := if t.Prefix? then UpdatedTlv(WithSubTlvs(t, ContextRemovedSubs(t.subTlvs, id))) else [t];
            |piece| <= 1
            && (piece == [] ==> RemoveContextProgress(orig, id, k + 1, RemoveAt(cur, j), j))
            && (|piece| == 1 ==> RemoveContextProgress(orig, id, k + 1, cur[j := piece[0]], j + 1))
  {
    assert orig[..k + 1][..k] == orig[..k];
    assert orig[k..][1..] == orig[k + 1..];
    var t := orig[k];
    CursorStep(ContextRemoved(orig[..k], id), orig[k..],
               if t.Prefix? then UpdatedTlv(WithSubTlvs(t, ContextRemovedSubs(t.subTlvs, id))) else [t],
               ContextRemoved(orig[..k + 1], id));
  }

  lemma RemoveContextDone(orig: seq<Tlv>, id: nat, k: nat, cur: seq<Tlv>, j: nat)
    requires RemoveContextProgress(orig, id, k, cur, j) && j == |cur|
    ensures cur == ContextRemoved(orig, id)
  {
    assert orig[..k] == orig;
  }

  // ---------------------------------------------------------------------
  // The in-place loops, on values
  // ---------------------------------------------------------------------

  /**
   * RemoveRlocInHasRoute: every entry of the Has Route sub-TLV that
   * matches and is not excluded is removed, the cursor staying put after a
   * removal, and each removal updates the flags.
   */
  method RemoveRlocInHasRoute(routes: seq<HasRouteEntry>, stable: bool, r: Removal, exclude: Option<Tlv>,
                              flags: ChangedFlags)
    returns (kept: seq<HasRouteEntry>, newFlags: ChangedFlags)
    ensures kept == KeptRoutes(routes, stable, r, exclude)
    ensures newFlags == RoutesFlags(flags, routes, stable, r, exclude)
  {
    kept, newFlags := routes, flags;
    var j: nat := 0;
    ghost var k := 0;
    assert routes[..0] == [];
    while j < |kept|
      invariant RoutesProgress(routes, stable, r, exclude, flags, k, kept, j, newFlags)
      decreases |routes| - k
    {
      kept, j, newFlags := VisitRoute(routes, stable, r, exclude, flags, k, kept, j, newFlags);
      k := k + 1;
    }
    RoutesDone(routes, stable, r, exclude, flags, k, kept, j, newFlags);
  }

  /** One step of RemoveRlocInHasRoute: remove the entry under the cursor or step over it. */
  method VisitRoute(ghost routes: seq<HasRouteEntry>, stable: bool, r: Removal, exclude: Option<Tlv>,
             ghost flags: ChangedFlags, ghost k: nat, cur: seq<HasRouteEntry>, j: nat, fl: ChangedFlags)
    returns (cur': seq<HasRouteEntry>, j': nat, fl': ChangedFlags)
    requires RoutesProgress(routes, stable, r, exclude, flags, k, cur, j, fl) && j < |cur|
    ensures k < |routes| && RoutesProgress(routes, stable, r, exclude, flags, k + 1, cur', j', fl')
  {
    RoutesStep(routes, stable, r, exclude, flags, k, cur, j, fl);
    if RouteRemovable(cur[j], stable, r, exclude) {
      cur', j', fl' := RemoveAt(cur, j), j, fl.Update(stable);
    } else {
      cur', j', fl' := cur, j + 1, fl;
    }
  }

  /** RemoveRlocInBorderRouter: the same for the entries of a Border Router sub-TLV. */
  method RemoveRlocInBorderRouter(routers: seq<BorderRouterEntry>, stable: bool, r: Removal, exclude: Option<Tlv>,
                                  flags: ChangedFlags)
    returns (kept: seq<BorderRouterEntry>, newFlags: ChangedFlags)
    ensures kept == KeptRouters(routers, stable, r, exclude)
    ensures newFlags == RoutersFlags(flags, routers, stable, r, exclude)
  {
    kept, newFlags := routers, flags;
    var j: nat := 0;
    ghost var k := 0;
    assert routers[..0] == [];
    while j < |kept|
      invariant RoutersProgress(routers, stable, r, exclude, flags, k, kept, j, newFlags)
      decreases |routers| - k
    {
      kept, j, newFlags := VisitRouter(routers, stable, r, exclude, flags, k, kept, j, newFlags);
      k := k + 1;
    }
    RoutersDone(routers, stable, r, exclude, flags, k, kept, j, newFlags);
  }

  /** One step of RemoveRlocInBorderRouter: remove the entry under the cursor or step over it. */
  method VisitRouter(ghost routers: seq<BorderRouterEntry>, stable: bool, r: Removal, exclude: Option<Tlv>,
                     ghost flags: ChangedFlags, ghost k: nat, cur: seq<BorderRouterEntry>, j: nat, fl: ChangedFlags)
    returns (cur': seq<BorderRouterEntry>, j': nat, fl': ChangedFlags)
    requires RoutersProgress(routers, stable, r, exclude, flags, k, cur, j, fl) && j < |cur|
    ensures k < |routers| && RoutersProgress(routers, stable, r, exclude, flags, k + 1, cur', j', fl')
  {
    RoutersStep(routers, stable, r, exclude, flags, k, cur, j, fl);
    if RouterRemovable(cur[j], stable, r, exclude) {
      cur', j', fl' := RemoveAt(cur, j), j, fl.Update(stable);
    } else {
      cur', j', fl' := cur, j + 1, fl;
    }
  }

  /**
   * RemoveRlocInService: every Server sub-TLV that matches and is not in
   * the excluded service is removed, updating the flags with its own
   * stable flag; other sub-TLVs are stepped over.
   */
  method RemoveRlocInService(subs: seq<SubTlv>, r: Removal, exclude: Option<Tlv>, flags: ChangedFlags)
    returns (kept: seq<SubTlv>, newFlags: ChangedFlags)
    ensures kept == KeptServers(subs, r, exclude)
    ensures newFlags == ServersFlags(flags, subs, r, exclude)
  {
    kept, newFlags := subs, flags;
    var j: nat := 0;
    ghost var k := 0;
    assert subs[..0] == [];
    while j < |kept|
      invariant ServersProgress(subs, r, exclude, flags, k, kept, j, newFlags)
      decreases |subs| - k
    {
      kept, j, newFlags := VisitServer(subs, r, exclude, flags, k, kept, j, newFlags);
      k := k + 1;
    }
    ServersDone(subs, r, exclude, flags, k, kept, j, newFlags);
  }

  /** One step of RemoveRlocInService: remove the sub-TLV under the cursor or step over it. */
  method VisitServer(ghost subs: seq<SubTlv>, r: Removal, exclude: Option<Tlv>,
             ghost flags: ChangedFlags, ghost k: nat, cur: seq<SubTlv>, j: nat, fl: ChangedFlags)
    returns (cur': seq<SubTlv>, j': nat, fl': ChangedFlags)
    requires ServersProgress(subs, r, exclude, flags, k, cur, j, fl) && j < |cur|
    ensures k < |subs| && ServersProgress(subs, r, exclude, flags, k + 1, cur', j', fl')
  {
    ServersStep(subs, r, exclude, flags, k, cur, j, fl);
    if ServerRemovable(cur[j], r, exclude) {
      cur', j', fl' := RemoveAt(cur, j), j, fl.Update(cur[j].stable);
    } else {
      cur', j', fl' := cur, j + 1, fl;
    }
  }

  /**
   * The loop of RemoveRlocInPrefix: the entries of each Has Route and
   * Border Router sub-TLV are removed, and a sub-TLV left empty is removed
   * with them.
   */
  method RemoveRlocInSubTlvs(subs: seq<SubTlv>, r: Removal, exclude: Option<Tlv>, flags: ChangedFlags)
    returns (pruned: seq<SubTlv>, newFlags: ChangedFlags)
    ensures pruned == PrunedSubs(subs, r, exclude)
    ensures newFlags == PrunedFlags(flags, subs, r, exclude)
  {
    pruned, newFlags := subs, flags;
    var j := 0;
    ghost var k := 0;
    assert subs[..0] == [];
    while j < |pruned|
      invariant PrunedProgress(subs, r, exclude, flags, k, pruned, j, newFlags)
      decreases |pruned| - j
    {
      PrunedStep(subs, r, exclude, flags, k, pruned, j, newFlags);
      var piece;
      match pruned[j] {
        case HasRoute(stable, routes) =>
          var kept;
          kept, newFlags := RemoveRlocInHasRoute(routes, stable, r, exclude, newFlags);
          piece := if kept == [] then [] else [HasRoute(stable, kept)];
        case BorderRouter(stable, routers) =>
          var kept;
          kept, newFlags := RemoveRlocInBorderRouter(routers, stable, r, exclude, newFlags);
          piece := if kept == [] then [] else [BorderRouter(stable, kept)];
        case _ =>
          piece := [pruned[j]];
      }
      if piece == [] {
        pruned := RemoveAt(pruned, j);
      } else {
        pruned := pruned[j := piece[0]];
        j := j + 1;
      }
      k := k + 1;
    }
    PrunedDone(subs, r, exclude, flags, k, pruned, j, newFlags);
  }

  /** RemoveContext on one prefix: every Context sub-TLV with the ID is removed. */
  method RemoveContextInPrefix(subs: seq<SubTlv>, id: nat) returns (kept: seq<SubTlv>)
    ensures kept == ContextRemovedSubs(subs, id)
  {
    kept := subs;
    var j := 0;
    ghost var k := 0;
    assert subs[..0] == [];
    while j < |kept|
      invariant ContextSubsProgress(subs, id, k, kept, j)
      decreases |kept| - j
    {
      ContextSubsStep(subs, id, k, kept, j);
      if kept[j].Context? && kept[j].contextId as nat == id {
        kept := RemoveAt(kept, j);
      } else {
        j := j + 1;
      }
      k := k + 1;
    }
    ContextSubsDone(subs, id, k, kept, j);
  }

  /**
   * RemoveContext over the Network Data: each Prefix TLV loses the context
   * and is then updated, the cursor staying put when the TLV is removed.
   */
  method RemoveContextInTlvs(tlvs: seq<Tlv>, id: nat) returns (out: seq<Tlv>)
    ensures out == ContextRemoved(tlvs, id)
  {
    out := tlvs;
    var j := 0;
    ghost var k := 0;
    assert tlvs[..0] == [];
    while j < |out|
      invariant RemoveContextProgress(tlvs, id, k, out, j)
      decreases |out| - j
    {
      RemoveContextStep(tlvs, id, k, out, j);
      if out[j].Prefix? {
        var kept := RemoveContextInPrefix(out[j].subTlvs, id);
        var updated := UpdateTlv(WithSubTlvs(out[j], kept));
        if updated == [] {
          out := RemoveAt(out, j);
        } else {
          out := out[j := updated[0]];
          j := j + 1;
        }
      } else {
        assert out[j := out[j]] == out;
        j := j + 1;
      }
      k := k + 1;
    }
    RemoveContextDone(tlvs, id, k, out, j);
  }

  /**
   * UpdateTlv: a Prefix or Service TLV without sub-TLVs is removed (the
   * result is empty); otherwise its stable flag is set when the search
   * finds a stable sub-TLV and cleared when it finds none.
   */
  method UpdateTlv(tlv: Tlv) returns (updated: seq<Tlv>)
    requires HasSubTlvs(tlv)
    ensures updated == UpdatedTlv(tlv)
  {
    var subs := tlv.subTlvs;
    if subs == [] {
      return [];
    }
    var i := 0;
    while i < |subs|
      invariant i <= |subs|
      invariant forall k | 0 <= k < i :: !subs[k].stable
    {
      if subs[i].stable {
        return [WithStable(tlv, true)];
      }
      i := i + 1;
    }
    updated := [WithStable(tlv, false)];
  }

  /**
   * ContainsMatchingEntry on a Has Route or Border Router sub-TLV, and
   * ContainsMatchingServer on a service's sub-TLVs: a scan for an equal
   * element.
   */
  method ContainsMatchingEntry<T(==)>(entries: seq<T>, entry: T) returns (contains: bool)
    ensures contains <==> entry in entries
  {
    var i := 0;
    while i < |entries|
      invariant i <= |entries| && entry !in entries[..i]
    {
      if entries[i] == entry {
        return true;
      }
      assert entries[..i + 1] == entries[..i] + [entries[i]];
      i := i + 1;
    }
    assert entries[..i] == entries;
    return false;
  }

  /**
   * AllocateServiceId: the lowest service ID no Service TLV carries, or
   * NotFound when all sixteen are taken.
   */
  method AllocateServiceId(tlvs: seq<Tlv>) returns (error: Error, serviceId: nat)
    ensures error == NoError || error == NotFound
    ensures error == NoError ==> MinServiceId <= serviceId <= MaxServiceId && !ServiceIdUsed(tlvs, serviceId)
                                 && forall id: nat | MinServiceId <= id < serviceId :: ServiceIdUsed(tlvs, id)
    ensures error == NotFound ==> forall id: nat | MinServiceId <= id <= MaxServiceId :: ServiceIdUsed(tlvs, id)
  {
    var id := MinServiceId;
    while id <= MaxServiceId
      invariant MinServiceId <= id <= MaxServiceId + 1
      invariant forall used: nat | MinServiceId <= used < id :: ServiceIdUsed(tlvs, used)
    {
      var found := FindServiceById(tlvs, id);
      if !found {
        return NoError, id;
      }
      id := id + 1;
    }
    return NotFound, 0;
  }

  /** FindServiceById: a scan of the TLVs for a Service TLV with the ID. */
  method FindServiceById(tlvs: seq<Tlv>, serviceId: nat) returns (found: bool)
    ensures found <==> ServiceIdUsed(tlvs, serviceId)
  {
    var i := 0;
    while i < |tlvs|
      invariant i <= |tlvs|
      invariant forall k | 0 <= k < i :: !(tlvs[k].Service? && tlvs[k].serviceId as nat == serviceId)
    {
      if tlvs[i].Service? && tlvs[i].serviceId as nat == serviceId {
        return true;
      }
      i := i + 1;
    }
    return false;
  }

  /** The context ID AddBorderRouter is offered: GetUnallocatedId's answer, asked only when the prefix has no context. */
  function OfferedContextId(subs: seq<SubTlv>, removeTimes: seq<uint32>): (r: Option<nat>)
    requires |removeTimes| == IdCount
    ensures r.Some? ==> IsContextId(r.value) && IdUnallocated(removeTimes, r.value)
    ensures r.None? && FindSub(subs, ContextKind, None).None?
            ==> forall id: nat | IsContextId(id) :: !IdUnallocated(removeTimes, id)
  {
    if FindSub(subs, ContextKind, None).Some? then None else FirstUnallocated(removeTimes)
  }

  /** The remove times after MarkAsInUse of the ID, if there is one. */
  function MarkedInUse(removeTimes: seq<uint32>, id: Option<nat>): (r: seq<uint32>)
    requires |removeTimes| == IdCount
    ensures |r| == IdCount
  {
    if id.Some? && IsContextId(id.value) then removeTimes[id.value - MinId := InUse] else removeTimes
  }

  /**
   * The end of AddBorderRouter, once the Border Router sub-TLV (at
   * brIndex) and the Context sub-TLV (at ctxIndex) are there: the context
   * is marked, then ContainsMatchingEntry is asked and the entry appended
   * if there is room. The ID to mark in use is returned.
   */
  method AddBorderRouterEntry(subs: seq<SubTlv>, brIndex: nat, ctxIndex: nat, entry: BorderRouterEntry, stable: bool,
                              room: int, flags: ChangedFlags)
    returns (res: AddResult, newFlags: ChangedFlags)
    requires brIndex < |subs| && ctxIndex < |subs| && subs[brIndex].BorderRouter? && subs[ctxIndex].Context?
    ensures res == EntryAdded(subs, brIndex, ctxIndex, entry, stable, room)
    ensures newFlags == if res.error == NoError && entry !in subs[brIndex].routers then flags.Update(stable) else flags
  {
    newFlags := flags;
    var c := subs[ctxIndex];
    var out := subs[ctxIndex := Context(c.stable || stable, true, c.contextId, c.contextLength)];
    var inUse := Some(c.contextId as nat);
    var contains := ContainsMatchingEntry(out[brIndex].routers, entry);
    if contains {
      return AddResult(NoError, out, inUse), flags;
    }
    if room < BorderRouterEntrySize {
      return AddResult(NoBufs, out, inUse), flags;
    }
    out := out[brIndex := BorderRouter(stable, out[brIndex].routers + [entry])];
    res, newFlags := AddResult(NoError, out, inUse), flags.Update(stable);
  }

  /**
   * AddHasRoute on a prefix's sub-TLVs with the room left: the Has Route
   * sub-TLV with the stable flag is appended when missing, and the entry
   * when missing, each after its own room check.
   */
  method AddHasRouteToSubs(subs: seq<SubTlv>, entry: HasRouteEntry, stable: bool, room: int)
    returns (error: Error, newSubs: seq<SubTlv>, changed: bool)
    requires room >= 0
    ensures error == NoError || error == NoBufs
    ensures error == NoError <==> SubTlvsSize(HasRouteAdded(subs, entry, stable)) <= SubTlvsSize(subs) + room
    ensures newSubs == if error == NoError then HasRouteAdded(subs, entry, stable) else subs
    ensures changed <==> error == NoError && !HoldsRoute(subs, stable, entry)
  {
    HasRouteAddedFacts(subs, entry, stable);
    var found := FindSub(subs, HasRouteKind, Some(stable));
    var cur := subs;
    var left := room;
    if found.None? {
      if left < TlvHeaderSize + HasRouteEntrySize {
        return NoBufs, subs, false;
      }
      cur := cur + [HasRoute(stable, [])];
      left := left - TlvHeaderSize;
    }
    var h := if found.None? then |cur| - 1 else found.value;
    var contains := ContainsMatchingEntry(cur[h].routes, entry);
    if contains {
      return NoError, subs, false;
    }
    if left < HasRouteEntrySize {
      return NoBufs, subs, false;
    }
    var grown := HasRoute(stable, cur[h].routes + [entry]);
    if found.None? {
      assert cur[h].routes == [] && grown == HasRoute(stable, [entry]);
      assert cur[h := grown] == subs + [grown];
    }
    return NoError, cur[h := grown], true;
  }

  /**
   * AddBorderRouter on a prefix's sub-TLVs, given the free context ID
   * (asked for only when the prefix has no Context sub-TLV) and the room
   * left: the Border Router and Context sub-TLVs are inserted when
   * missing, each after its own room check.
   */
  method AddBorderRouterToSubs(subs: seq<SubTlv>, prefixLength: uint8, entry: BorderRouterEntry, stable: bool,
                               freeId: Option<nat>, room: int, flags: ChangedFlags)
    returns (res: AddResult, newFlags: ChangedFlags)
    requires freeId.Some? ==> IsContextId(freeId.value)
    ensures res == BorderRouterAdded(subs, prefixLength, entry, stable, freeId, room)
    ensures newFlags == if res.error == NoError && !HoldsRouter(subs, stable, entry) then flags.Update(stable) else flags
  {
    newFlags := flags;
    var br := FindSub(subs, BorderRouterKind, Some(stable));
    var ctx := FindSub(subs, ContextKind, None);
    if ctx.None? && freeId.None? {
      return AddResult(NotFound, subs, None), flags;
    }
    var cur := subs;
    var left := room;
    if br.None? {
      if left < TlvHeaderSize + BorderRouterEntrySize + (if ctx.None? then ContextTlvSize else 0) {
        return AddResult(NoBufs, subs, None), flags;
      }
      cur := cur + [BorderRouter(stable, [])];
      left := left - TlvHeaderSize;
    }
    ghost var withBr := Ensured(subs, BorderRouterKind, Some(stable), BorderRouter(stable, []));
    EnsuredFacts(subs, BorderRouterKind, Some(stable), BorderRouter(stable, []), ContextKind, None);
    var brIndex := if br.None? then |cur| - 1 else br.value;
    assert cur == withBr.0 && brIndex == withBr.1;
    var id := if ctx.None? then freeId.value else 0;
    if ctx.None? {
      if left < BorderRouterEntrySize + ContextTlvSize {
        return AddResult(NoBufs, cur, None), flags;
      }
      cur := cur + [Context(false, false, id as uint8, prefixLength)];
      left := left - ContextTlvSize;
    }
    var ctxIndex := if ctx.None? then |cur| - 1 else ctx.value;
    ghost var withCtx := Ensured(withBr.0, ContextKind, None, Context(false, false, id as uint8, prefixLength));
    EnsuredFacts(withBr.0, ContextKind, None, Context(false, false, id as uint8, prefixLength),
                 BorderRouterKind, Some(stable));
    assert cur == withCtx.0 && ctxIndex == withCtx.1;
    assert entry in cur[brIndex].routers <==> HoldsRouter(subs, stable, entry);
    res, newFlags := AddBorderRouterEntry(cur, brIndex, ctxIndex, entry, stable, left, flags);
  }

  /** Writing one TLV back: the size changes by the difference, and context IDs stay in range. */
  lemma TlvReplaced(tlvs: seq<Tlv>, i: nat, tlv: Tlv)
    requires i < |tlvs|
    ensures TlvsSize(tlvs[i := tlv]) + TlvSize(tlvs[i]) == TlvsSize(tlvs) + TlvSize(tlv)
    ensures ContextsInRange(tlvs) && TlvContextsInRange(tlv) ==> ContextsInRange(tlvs[i := tlv])
  {
    TlvsSizeUpdate(tlvs, i, tlv);
  }

  /**
   * AddBorderRouter on the whole Network Data, given the ID the context
   * allocator would hand out: the Prefix TLV at i gets the edited sub-TLVs,
   * and the result still fits and keeps its context IDs in range.
   */
  method AddBorderRouterToTlvs(tlvs: seq<Tlv>, i: nat, entry: BorderRouterEntry, stable: bool,
                               freeId: Option<nat>, flags: ChangedFlags)
    returns (res: AddResult, newTlvs: seq<Tlv>, newFlags: ChangedFlags)
    requires TlvsSize(tlvs) <= MaxSize && ContextsInRange(tlvs) && i < |tlvs| && tlvs[i].Prefix?
    requires freeId.Some? ==> IsContextId(freeId.value)
    ensures res == BorderRouterAdded(tlvs[i].subTlvs, tlvs[i].prefixLength, entry, stable, freeId,
                                     MaxSize - TlvsSize(tlvs))
    ensures newTlvs == tlvs[i := WithSubTlvs(tlvs[i], res.subs)]
    ensures TlvsSize(newTlvs) <= MaxSize && ContextsInRange(newTlvs)
    ensures res.inUse.Some? ==> IsContextId(res.inUse.value)
    ensures newFlags == if res.error == NoError && !HoldsRouter(tlvs[i].subTlvs, stable, entry)
                        then flags.Update(stable) else flags
  {
    var prefix := tlvs[i];
    var room: int := MaxSize - TlvsSize(tlvs);
    BorderRouterAddedFits(prefix.subTlvs, prefix.prefixLength, entry, stable, freeId, room);
    BorderRouterAddedInRange(prefix.subTlvs, prefix.prefixLength, entry, stable, freeId, room);
    res, newFlags := AddBorderRouterToSubs(prefix.subTlvs, prefix.prefixLength, entry, stable, freeId, room, flags);
    WithSubTlvsSize(prefix, res.subs);
    TlvReplaced(tlvs, i, WithSubTlvs(prefix, res.subs));
    newTlvs := tlvs[i := WithSubTlvs(prefix, res.subs)];
  }

  // ---------------------------------------------------------------------
  // The leader
  // ---------------------------------------------------------------------

  /** An 8-bit version number one step on, wrapping from 255 to 0. */
  function Next8(v: uint8): (r: uint8)
    ensures r == Wrap8(v as int + 1)
  {
    if v == 255 then 0 else v + 1
  }

  /** A version number `n` steps on. */
  function Bumped(v: uint8, n: nat): uint8
  {
    if n == 0 then v else Next8(Bumped(v, n - 1))
  }

  /** `n` steps of one are one step of `n`, modulo 256. */
  lemma {:induction false} BumpedWraps(v: uint8, n: nat)
    ensures Bumped(v, n) == Wrap8(v as int + n)
  {
    if n > 0 {
      BumpedWraps(v, n - 1);
      Wrap8Next(v as int + n - 1);
    }
  }

  /**
   * The timer sweep after visiting the IDs below `id`: the expired ones
   * are unallocated and removed from the Network Data, each removal moved
   * both versions on, and `next` is the earliest remove time still to come.
   */
  ghost predicate SweepProgress(times0: seq<uint32>, tlvs0: seq<Tlv>, version0: uint8, stableVersion0: uint8,
                                now: uint32, id: nat, removed: seq<nat>, times: seq<uint32>, tlvs: seq<Tlv>,
                                version: uint8, stableVersion: uint8, next: Option<uint32>)
  {
    |times0| == IdCount && MinId <= id <= MaxId + 1
    && removed == ExpiredBelow(times0, now, id)
    && times == SweptBelow(times0, now, id)
    && tlvs == ContextsRemoved(tlvs0, removed)
    && version == Bumped(version0, |removed|) && stableVersion == Bumped(stableVersion0, |removed|)
    && next == NextRemoveTime(times0, now, id)
  }

  /** One ID of the sweep, given what SweepId did with it. */
  lemma SweepProgressStep(times0: seq<uint32>, tlvs0: seq<Tlv>, version0: uint8, stableVersion0: uint8,
                          now: uint32, id: nat, removed: seq<nat>, times: seq<uint32>, tlvs: seq<Tlv>,
                          version: uint8, stableVersion: uint8, next: Option<uint32>,
                          expired: bool, waiting: Option<uint32>, times': seq<uint32>, tlvs': seq<Tlv>,
                          version': uint8, stableVersion': uint8)
    requires SweepProgress(times0, tlvs0, version0, stableVersion0, now, id, removed, times, tlvs,
                           version, stableVersion, next)
    requires id <= MaxId
    requires expired == Expired(times, now, id)
    requires waiting == if Waiting(times, now, id) then Some(times[id - MinId]) else None
    requires times' == (if expired then times[id - MinId := Unallocated] else times)
    requires tlvs' == (if expired then ContextRemoved(tlvs, id) else tlvs)
    requires version' == (if expired then Next8(version) else version)
    requires stableVersion' == (if expired then Next8(stableVersion) else stableVersion)
    ensures SweepProgress(times0, tlvs0, version0, stableVersion0, now, id + 1,
                          if expired then removed + [id] else removed, times', tlvs', version', stableVersion',
                          if waiting.Some? then EarliestOf(next, waiting.value) else next)
  {
    SweptStep(times0, now, id);
    SameState(times, times0, now, id);
    ExpiredBelowStep(times0, now, id);
    ContextsRemovedStep(tlvs0, removed, id);
  }

  /**
   * The leader's Network Data: its TLVs, the version and stable version,
   * and the context IDs. The TLVs always fit in kMaxSize bytes and every
   * Context sub-TLV names an ID the context IDs track.
   */
  class Leader {
    var tlvs: seq<Tlv>
    var version: uint8
    var stableVersion: uint8
    const contextIds: ContextIds

    ghost predicate Valid()
      reads this, contextIds
    {
      TlvsSize(tlvs) <= MaxSize && contextIds.Valid() && ContextsInRange(tlvs)
    }

    /** The leader after Reset: no TLVs, the two versions as drawn at random, every context ID unallocated. */
    constructor (initialVersion: uint8, initialStableVersion: uint8)
      ensures Valid() && fresh(contextIds)
      ensures tlvs == [] && version == initialVersion && stableVersion == initialStableVersion
      ensures forall id: nat | IsContextId(id) :: contextIds.IsUnallocated(id)
    {
      tlvs := [];
      version := initialVersion;
      stableVersion := initialStableVersion;
      contextIds := new ContextIds();
    }

    /** IncrementVersions: the version always moves on, the stable version only when asked to. */
    method IncrementVersions(includeStable: bool)
      modifies this`version, this`stableVersion
      ensures version == Wrap8(old(version) as int + 1)
      ensures stableVersion == if includeStable then Wrap8(old(stableVersion) as int + 1) else old(stableVersion)
    {
      if includeStable {
        stableVersion := Wrap8(stableVersion as int + 1);
      }
      version := Wrap8(version as int + 1);
    }

    /** IncrementVersions from the flags of an edit: nothing when nothing changed. */
    method IncrementVersionsFor(flags: ChangedFlags)
      modifies this`version, this`stableVersion
      ensures version == if flags.changed then Wrap8(old(version) as int + 1) else old(version)
      ensures stableVersion == if flags.changed && flags.stableChanged then Wrap8(old(stableVersion) as int + 1)
                               else old(stableVersion)
    {
      if flags.changed {
        IncrementVersions(flags.stableChanged);
      }
    }

    /**
     * RemoveRlocInPrefix: the entries of the departing RLOC16 leave the
     * prefix's sub-TLVs; then its first context loses its compress flag and
     * has its ID scheduled for removal when no Border Router sub-TLV is
     * left, and keeps the flag and its ID in use otherwise.
     */
    method RemoveRlocInPrefix(prefix: Tlv, r: Removal, exclude: Option<Tlv>, flags: ChangedFlags, now: uint32)
      returns (result: Tlv, newFlags: ChangedFlags)
      requires prefix.Prefix? && TlvContextsInRange(prefix) && contextIds.Valid()
      modifies contextIds`removeTimes, contextIds`timer
      ensures contextIds.Valid() && ActionInRange(PrefixContextAction(prefix, r, exclude))
      ensures result == PrefixRlocRemoved(prefix, r, exclude)
      ensures newFlags == PrunedFlags(flags, prefix.subTlvs, r, exclude)
      ensures (contextIds.removeTimes, contextIds.timer)
              == ApplyContextAction(old(contextIds.removeTimes), old(contextIds.timer),
                                    PrefixContextAction(prefix, r, exclude), now, contextIds.reuseDelay)
    {
      var pruned;
      pruned, newFlags := RemoveRlocInSubTlvs(prefix.subTlvs, r, exclude, flags);
      PrunedSubsInRange(prefix.subTlvs, r, exclude);
      ContextStepFacts(pruned, r, exclude);
      ghost var step := ContextStep(pruned);
      ghost var times0, timer0 := contextIds.removeTimes, contextIds.timer;
      match FindSub(pruned, ContextKind, None) {
        case None =>
          assert step == (pruned, NoContext);
        case Some(c) =>
          var ctx := pruned[c];
          assert IsContextId(ctx.contextId as nat);
          if FindSub(pruned, BorderRouterKind, None).None? {
            pruned := pruned[c := Context(ctx.stable, false, ctx.contextId, ctx.contextLength)];
            assert step == (pruned, Release(ctx.contextId as nat));
            contextIds.ScheduleToRemove(ctx.contextId as nat, now);
            assert (contextIds.removeTimes, contextIds.timer)
                   == ApplyContextAction(times0, timer0, step.1, now, contextIds.reuseDelay);
          } else {
            pruned := pruned[c := Context(ctx.stable, true, ctx.contextId, ctx.contextLength)];
            assert step == (pruned, KeepInUse(ctx.contextId as nat));
            contextIds.MarkAsInUse(ctx.contextId as nat);
            assert (contextIds.removeTimes, contextIds.timer)
                   == ApplyContextAction(times0, timer0, step.1, now, contextIds.reuseDelay);
          }
      }
      result := WithSubTlvs(prefix, pruned);
    }

    /**
     * One step of RemoveRloc's loop: a Prefix TLV goes through
     * RemoveRlocInPrefix and a Service TLV through RemoveRlocInService,
     * each then through UpdateTlv; other TLVs stay.
     */
    method RemoveRlocInTlv(tlv: Tlv, r: Removal, exclude: seq<Tlv>, flags: ChangedFlags, now: uint32)
      returns (updated: seq<Tlv>, newFlags: ChangedFlags)
      requires TlvContextsInRange(tlv) && contextIds.Valid()
      modifies contextIds`removeTimes, contextIds`timer
      ensures contextIds.Valid()
      ensures ActionsInRange(RlocRemovedTlvAction(tlv, r, exclude))
      ensures updated == RlocRemovedTlv(tlv, r, exclude)
      ensures newFlags == RlocRemovedTlvFlags(flags, tlv, r, exclude)
      ensures (contextIds.removeTimes, contextIds.timer)
              == ApplyContextActions(old(contextIds.removeTimes), old(contextIds.timer),
                                     RlocRemovedTlvAction(tlv, r, exclude), now, contextIds.reuseDelay)
    {
      match tlv {
        case Prefix(_, _, _, _, _) =>
          var pruned;
          pruned, newFlags := RemoveRlocInPrefix(tlv, r, ExcludePrefix(exclude, tlv), flags, now);
          updated := UpdateTlv(pruned);
          assert RlocRemovedTlvAction(tlv, r, exclude)[..0] == [];
        case Service(_, _, _, _, subs) =>
          var kept;
          kept, newFlags := RemoveRlocInService(subs, r, ExcludeService(exclude, tlv), flags);
          updated := UpdateTlv(WithSubTlvs(tlv, kept));
        case _ =>
          updated, newFlags := [tlv], flags;
      }
    }

    /**
     * RemoveRloc: every Prefix and Service TLV loses the entries of the
     * departing RLOC16 that the exclude data does not hold, and is removed
     * when left empty; the flags record each removal, and each prefix's
     * context ID is kept in use or released.
     */
    method RemoveRloc(rloc16: uint16, mode: MatchMode, exclude: seq<Tlv>, flags: ChangedFlags, now: uint32)
      returns (newFlags: ChangedFlags)
      requires Valid()
      modifies this`tlvs, contextIds`removeTimes, contextIds`timer
      ensures Valid()
      ensures ActionsInRange(RlocRemovedActions(old(tlvs), Removal(rloc16, mode), exclude))
      ensures tlvs == RlocRemoved(old(tlvs), Removal(rloc16, mode), exclude)
      ensures newFlags == RlocRemovedFlags(flags, old(tlvs), Removal(rloc16, mode), exclude)
      ensures (contextIds.removeTimes, contextIds.timer)
              == ApplyContextActions(old(contextIds.removeTimes), old(contextIds.timer),
                                     RlocRemovedActions(old(tlvs), Removal(rloc16, mode), exclude),
                                     now, contextIds.reuseDelay)
    {
      var r := Removal(rloc16, mode);
      ghost var orig := tlvs;
      ghost var times0, timer0 := contextIds.removeTimes, contextIds.timer;
      newFlags := flags;
      var j := 0;
      ghost var k := 0;
      ghost var actions: seq<ContextAction> := [];
      assert orig[..0] == [];
      while j < |tlvs|
        invariant RlocProgress(orig, r, exclude, flags, k, tlvs, j, newFlags, actions)
        invariant contextIds.Valid() && contextIds.reuseDelay == old(contextIds.reuseDelay)
        invariant ContextsAfter(contextIds.removeTimes, contextIds.timer, times0, timer0, actions,
                                now, contextIds.reuseDelay)
        decreases |tlvs| - j
      {
        RlocStep(orig, r, exclude, flags, k, tlvs, j, newFlags, actions);
        ghost var mid := (contextIds.removeTimes, contextIds.timer);
        ghost var more := RlocRemovedTlvAction(tlvs[j], r, exclude);
        var updated;
        updated, newFlags := RemoveRlocInTlv(tlvs[j], r, exclude, newFlags, now);
        ContextsAfterStep(contextIds.removeTimes, contextIds.timer, mid.0, mid.1, times0, timer0,
                          actions, more, now, contextIds.reuseDelay);
        actions := actions + more;
        if updated == [] {
          tlvs := RemoveAt(tlvs, j);
        } else {
          tlvs := tlvs[j := updated[0]];
          j := j + 1;
        }
        k := k + 1;
      }
      RlocDone(orig, r, exclude, flags, k, tlvs, j, newFlags, actions);
      RlocRemovedFacts(orig, r, exclude);
    }
    /**
     * AddHasRoute on the Prefix TLV at index i: the entry joins the Has
     * Route sub-TLV with its stable flag, inserted first when missing. Each
     * insertion needs room; without it the result is NoBufs and nothing
     * changes. An entry already there is NoError without change.
     */
    method AddHasRoute(i: nat, entry: HasRouteEntry, stable: bool, flags: ChangedFlags)
      returns (error: Error, newFlags: ChangedFlags)
      requires Valid() && i < |tlvs| && tlvs[i].Prefix?
      modifies this`tlvs
      ensures Valid()
      ensures error == NoError || error == NoBufs
      ensures var added := old(tlvs)[i := WithSubTlvs(old(tlvs)[i], HasRouteAdded(old(tlvs)[i].subTlvs, entry, stable))];
              (error == NoError <==> TlvsSize(added) <= MaxSize)
              && tlvs == if error == NoError then added else old(tlvs)
      ensures error == NoError ==> HoldsRoute(tlvs[i].subTlvs, stable, entry)
      ensures newFlags == if error == NoError && !HoldsRoute(old(tlvs)[i].subTlvs, stable, entry)
                          then flags.Update(stable) else flags
    {
      var tlvs0 := tlvs;
      var prefix := tlvs0[i];
      var room: int := MaxSize - TlvsSize(tlvs0);
      ghost var target := HasRouteAdded(prefix.subTlvs, entry, stable);
      HasRouteAddedFacts(prefix.subTlvs, entry, stable);
      WithSubTlvsSize(prefix, target);
      TlvReplaced(tlvs0, i, WithSubTlvs(prefix, target));
      var subs, changed;
      error, subs, changed := AddHasRouteToSubs(prefix.subTlvs, entry, stable, room);
      tlvs := if error == NoError then tlvs0[i := WithSubTlvs(prefix, subs)] else tlvs0;
      newFlags := if changed then flags.Update(stable) else flags;
    }

    /**
     * AddServer on the Service TLV at index i: an identical Server sub-TLV
     * already there is NoError without change; otherwise the sub-TLV is
     * appended when it fits and NoBufs leaves everything as it was.
     */
    method AddServer(i: nat, server: SubTlv, flags: ChangedFlags) returns (error: Error, newFlags: ChangedFlags)
      requires Valid() && i < |tlvs| && tlvs[i].Service? && server.Server?
      modifies this`tlvs
      ensures Valid()
      ensures error == NoError || error == NoBufs
      ensures var added := old(tlvs)[i := WithSubTlvs(old(tlvs)[i], ServerAdded(old(tlvs)[i].subTlvs, server))];
              (error == NoError <==> TlvsSize(added) <= MaxSize)
              && tlvs == if error == NoError then added else old(tlvs)
      ensures error == NoError ==> server in tlvs[i].subTlvs
      ensures newFlags == if error == NoError && server !in old(tlvs)[i].subTlvs
                          then flags.Update(server.stable) else flags
    {
      error, newFlags := NoError, flags;
      var service := tlvs[i];
      ghost var target := ServerAdded(service.subTlvs, server);
      ServerAddedFacts(service.subTlvs, server);
      WithSubTlvsSize(service, target);
      TlvReplaced(tlvs, i, WithSubTlvs(service, target));
      var contains := ContainsMatchingEntry(service.subTlvs, server);
      if contains {
        assert WithSubTlvs(service, target) == service;
        return NoError, flags;
      }
      if SubTlvSize(server) > MaxSize - TlvsSize(tlvs) {
        return NoBufs, flags;
      }
      tlvs := tlvs[i := WithSubTlvs(service, service.subTlvs + [server])];
      newFlags := flags.Update(server.stable);
    }

    /**
     * AddBorderRouter on the Prefix TLV at index i: a prefix without a
     * context first needs a free context ID (NotFound, nothing changed,
     * when there is none); the sub-TLVs are then edited as
     * AddBorderRouterToSubs does, written back, and the context's ID is
     * marked in use.
     */
    method AddBorderRouter(i: nat, entry: BorderRouterEntry, stable: bool, flags: ChangedFlags)
      returns (error: Error, newFlags: ChangedFlags)
      requires Valid() && i < |tlvs| && tlvs[i].Prefix?
      modifies this`tlvs, contextIds`removeTimes
      ensures Valid()
      ensures var subs := old(tlvs)[i].subTlvs;
              var res := BorderRouterAdded(subs, old(tlvs)[i].prefixLength, entry, stable,
                                           OfferedContextId(subs, old(contextIds.removeTimes)),
                                           MaxSize - TlvsSize(old(tlvs)));
              error == res.error && tlvs == old(tlvs)[i := WithSubTlvs(old(tlvs)[i], res.subs)]
              && contextIds.removeTimes == MarkedInUse(old(contextIds.removeTimes), res.inUse)
      ensures newFlags == if error == NoError && !HoldsRouter(old(tlvs)[i].subTlvs, stable, entry)
                          then flags.Update(stable) else flags
    {
      var tlvs0 := tlvs;
      ghost var times0 := contextIds.removeTimes;
      var freeId: Option<nat> := None;
      if FindSub(tlvs0[i].subTlvs, ContextKind, None).None? {
        var idError, id := contextIds.GetUnallocatedId();
        if idError == NoError {
          freeId := Some(id);
        }
      }
      assert freeId == OfferedContextId(tlvs0[i].subTlvs, times0);
      var res, newTlvs;
      res, newTlvs, newFlags := AddBorderRouterToTlvs(tlvs0, i, entry, stable, freeId, flags);
      tlvs := newTlvs;
      if res.inUse.Some? {
        contextIds.MarkAsInUse(res.inUse.value);
      }
      assert contextIds.removeTimes == MarkedInUse(times0, res.inUse);
      error := res.error;
    }

    /**
     * RemoveContext: every Prefix TLV loses its Context sub-TLVs with the
     * ID and is updated or removed; both versions move on.
     */
    method RemoveContext(id: nat)
      requires Valid()
      modifies this`tlvs, this`version, this`stableVersion
      ensures Valid()
      ensures tlvs == ContextRemoved(old(tlvs), id)
      ensures NoPrefixHolds(tlvs, id)
      ensures version == Wrap8(old(version) as int + 1) && stableVersion == Wrap8(old(stableVersion) as int + 1)
    {
      ContextRemovedFacts(tlvs, id);
      tlvs := RemoveContextInTlvs(tlvs, id);
      IncrementVersions(true);
    }

    /**
     * UpdateCommissioningData and SetCommissioningData: room is needed
     * only for what the new data adds over the old TLV's; the old TLV is
     * removed and a non-stable one carrying the data is appended, and the
     * version (not the stable version) moves on.
     */
    method SetCommissioningData(data: seq<uint8>) returns (error: Error)
      requires Valid()
      modifies this`tlvs, this`version
      ensures Valid()
      ensures error == NoError || error == NoBufs
      ensures error == NoError <==> TlvsSize(CommissioningDataSet(old(tlvs), data)) <= MaxSize
      ensures tlvs == if error == NoError then CommissioningDataSet(old(tlvs), data) else old(tlvs)
      ensures version == if error == NoError then Wrap8(old(version) as int + 1) else old(version)
    {
      var found := FindCommissioningData(tlvs);
      var insertLength: int;
      if found.Some? {
        var oldLength := |tlvs[found.value].data|;
        insertLength := if |data| <= oldLength then 0 else |data| - oldLength;
      } else {
        insertLength := TlvHeaderSize + |data|;
      }
      CommissioningDataSetSize(tlvs, data);
      CommissioningDataSetInRange(tlvs, data);
      if TlvsSize(tlvs) + insertLength > MaxSize {
        return NoBufs;
      }
      tlvs := CommissioningDataSet(tlvs, data);
      version := Wrap8(version as int + 1);
      error := NoError;
    }

    /**
     * One ID of the timer sweep: an expired ID is marked unallocated and
     * removed from the Network Data; a waiting one hands back its remove
     * time; IDs in use or unallocated are skipped.
     */
    method SweepId(id: nat, now: uint32) returns (expired: bool, waiting: Option<uint32>)
      requires Valid() && IsContextId(id)
      modifies this`tlvs, this`version, this`stableVersion, contextIds`removeTimes
      ensures Valid()
      ensures expired == Expired(old(contextIds.removeTimes), now, id)
      ensures var times := old(contextIds.removeTimes);
              contextIds.removeTimes == (if expired then times[id - MinId := Unallocated] else times)
              && tlvs == (if expired then ContextRemoved(old(tlvs), id) else old(tlvs))
              && version == (if expired then Next8(old(version)) else old(version))
              && stableVersion == (if expired then Next8(old(stableVersion)) else old(stableVersion))
      ensures waiting == if Waiting(old(contextIds.removeTimes), now, id)
                         then Some(old(contextIds.removeTimes)[id - MinId]) else None
    {
      expired, waiting := false, None;
      if contextIds.IsUnallocated(id) || contextIds.IsInUse(id) {
        return;
      }
      var time := contextIds.removeTimes[id - MinId];
      if !SerialLess(now, time) {
        expired := true;
        contextIds.MarkAsUnallocated(id);
        RemoveContext(id);
      } else {
        waiting := Some(time);
      }
    }

    /**
     * The leader's HandleTimer (ContextIds::HandleTimer): every ID whose
     * remove time has come is marked unallocated and removed from the
     * Network Data; the timer is rearmed for the earliest remove time
     * still to come, or stopped when none is.
     */
    method HandleTimer(now: uint32)
      requires Valid()
      modifies this`tlvs, this`version, this`stableVersion, contextIds`removeTimes, contextIds`timer
      ensures Valid()
      ensures var expired := ExpiredBelow(old(contextIds.removeTimes), now, MaxId + 1);
              contextIds.removeTimes == SweptBelow(old(contextIds.removeTimes), now, MaxId + 1)
              && tlvs == ContextsRemoved(old(tlvs), expired)
              && version == Bumped(old(version), |expired|)
              && stableVersion == Bumped(old(stableVersion), |expired|)
      ensures contextIds.timer == TimerFor(NextRemoveTime(old(contextIds.removeTimes), now, MaxId + 1))
    {
      ghost var times0 := contextIds.removeTimes;
      ghost var tlvs0 := tlvs;
      ghost var version0 := version;
      ghost var stableVersion0 := stableVersion;
      var next: Option<uint32> := None;
      ghost var removed: seq<nat> := [];
      var id := MinId;
      assert SweptBelow(times0, now, MinId) == times0;
      while id <= MaxId
        invariant Valid()
        invariant SweepProgress(times0, tlvs0, version0, stableVersion0, now, id, removed,
                                contextIds.removeTimes, tlvs, version, stableVersion, next)
      {
        removed, next := SweepNext(times0, tlvs0, version0, stableVersion0, now, id, removed, next);
        id := id + 1;
      }
      contextIds.timer := TimerFor(next);
    }

    /** One iteration of HandleTimer: sweep one ID and fold its remove time into the next firing time. */
    method SweepNext(ghost times0: seq<uint32>, ghost tlvs0: seq<Tlv>, ghost version0: uint8, ghost stableVersion0: uint8,
                     now: uint32, id: nat, ghost removed: seq<nat>, next: Option<uint32>)
      returns (ghost removed': seq<nat>, next': Option<uint32>)
      requires Valid() && id <= MaxId
      requires SweepProgress(times0, tlvs0, version0, stableVersion0, now, id, removed,
                             contextIds.removeTimes, tlvs, version, stableVersion, next)
      modifies this`tlvs, this`version, this`stableVersion, contextIds`removeTimes
      ensures Valid()
      ensures SweepProgress(times0, tlvs0, version0, stableVersion0, now, id + 1, removed',
                            contextIds.removeTimes, tlvs, version, stableVersion, next')
    {
      ghost var times, before, v, sv := contextIds.removeTimes, tlvs, version, stableVersion;
      var expired, waiting := SweepId(id, now);
      SweepProgressStep(times0, tlvs0, version0, stableVersion0, now, id, removed, times, before, v, sv, next,
                        expired, waiting, contextIds.removeTimes, tlvs, version, stableVersion);
      next' := if waiting.Some? then EarliestOf(next, waiting.value) else next;
      removed' := if expired then removed + [id] else removed;
    }
  }
}
