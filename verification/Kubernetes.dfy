/**
 * The Kubernetes provider (src/providers/k8s.rs): game-server events become actions for one
 * namespace's batcher, and a re-listing of the namespace becomes a reset.
 */
module Kubernetes {
  import opened Base
  import opened Endpoints
  import opened EndpointSets
  import opened TokenIndex
  import opened Updates
  import opened Clusters
  import Batcher

  /** The calling side of a batcher, run to completion (src/net/cluster.rs). */
  class ClusterUpdateBatcher {
    const clusterMap: ClusterMap
    const locality: Loc
    var updates: seq<Action>

    constructor (clusterMap: ClusterMap, locality: Loc)
      ensures this.clusterMap == clusterMap && this.locality == locality && updates == []
    {
      this.clusterMap, this.locality, updates := clusterMap, locality, [];
    }

    /** The endpoints as they will be once everything queued is applied. */
    ghost function Logical(): EndpointMap
      reads this, clusterMap
    {
      ApplyBatch(EndpointsAt(clusterMap.sets, locality), updates)
    }

    method Flush()
      requires clusterMap.Valid()
      modifies this, clusterMap
      ensures clusterMap.Valid() && updates == []
      ensures EndpointsAt(clusterMap.sets, locality) == old(Logical()) == Logical()
    {
      var taken := updates;
      updates := [];
      if taken != [] {
        clusterMap.BatchModify(locality, taken);
      }
    }

    method Push(update: Action)
      modifies this
      ensures updates == old(updates) + [update]
      ensures Logical() == ApplyAction(old(Logical()), update)
    {
      updates := updates + [update];
      assert updates[..|updates| - 1] == old(updates);
    }

    /** Flushes first, so that nothing pushed earlier can land after the reset. */
    method PartialReplace(s: EndpointSet, owned: Metadata -> bool)
      requires clusterMap.Valid()
      modifies this, clusterMap
      ensures clusterMap.Valid() && updates == []
      ensures EndpointsAt(clusterMap.sets, locality) == PartiallyReplaced(old(Logical()), s.endpoints, owned) ==
              Logical()
    {
      hide PartiallyReplaced;
      Flush();
      ReplaceNothing(s.endpoints, owned);
      clusterMap.PartialReplaceAt(locality, s, owned);
    }
  }

  // ---- Events ----

  /** `endpoint` is None when the server has no usable address. */
  datatype GameServer = GameServer(isAllocated: bool, endpoint: Option<Endpoint>, name: Option<string>)

  /** A server is None when the object could not be decoded. */
  datatype Event =
    | Apply(server: Option<GameServer>)
    | Init
    | InitApply(server: Option<GameServer>)
    | InitDone
    | Delete(server: Option<GameServer>)

  /** validate_gameserver. */
  function Validated(server: Option<GameServer>): Option<Endpoint> {
    if server.Some? && server.value.isAllocated then server.value.endpoint else None
  }

  /** A BTreeMap keeps the key it has: endpoints compare by address, so the first metadata stays. */
  function Buffer(servers: EndpointMap, e: Endpoint): EndpointMap {
    if e.address in servers then servers else servers[e.address := e.metadata]
  }

  function ServersAfter(servers: EndpointMap, ev: Event): EndpointMap {
    match ev
    case InitApply(s) => if Validated(s).Some? then Buffer(servers, Validated(s).value) else servers
    case InitDone => map[]
    case _ => servers
  }

  /** The operations an event issues to the batcher. */
  function OpsOf(servers: EndpointMap, ev: Event): seq<Batcher.Op> {
    match ev
    case Apply(s) => if Validated(s).Some? then [Batcher.Act(Upsert(Validated(s).value))] else []
    case InitDone => [Batcher.Reset(servers)]
    case Delete(Some(s)) =>
      if s.endpoint.Some? then [Batcher.Act(RemoveByEndpoint(s.endpoint.value))]
      else if s.name.Some? then [Batcher.Act(RemoveByName(s.name.value))]
      else []
    case _ => []
  }

  // ---- What an event must do ----

  /** A server that can be used: decoded, allocated and with an address. */
  predicate Usable(server: Option<GameServer>, e: Endpoint) {
    server.Some? && server.value.isAllocated && server.value.endpoint == Some(e)
  }

  /** A reset brings all of `servers` and spares only what other namespaces own. */
  ghost predicate NamespaceReset(servers: EndpointMap, ns: string, was: EndpointMap, now: EndpointMap) {
    forall a :: Get(now, a) ==
      if a in servers then Some(servers[a])
      else if a in was && Get(was[a].unknown, "namespace") != Some(Str(ns)) then Some(was[a])
      else None
  }

  /** How an event moves the endpoints and the buffered servers. */
  ghost predicate Processed(ns: string, ev: Event, was: EndpointMap, now: EndpointMap, buffer: EndpointMap,
                            buffer': EndpointMap) {
    match ev
    case Apply(s) =>
      && buffer' == buffer && (forall e :: Usable(s, e) ==> now == was[e.address := e.metadata])
      && ((forall e :: !Usable(s, e)) ==> now == was)
    case Init => now == was && buffer' == buffer
    case InitApply(s) =>
      && now == was && ((forall e :: !Usable(s, e)) ==> buffer' == buffer)
      && (forall e :: Usable(s, e) ==> buffer' == map[e.address := e.metadata] + buffer)
    case InitDone => buffer' == map[] && NamespaceReset(buffer, ns, was, now)
    case Delete(None) => now == was && buffer' == buffer
    case Delete(Some(s)) =>
      && buffer' == buffer
      && if s.endpoint.Some? then now == was - {s.endpoint.value.address}
         else if s.name.Some? then FirstNamedGone(s.name.value, was, now)
         else now == was
  }

  lemma OpsProcess(ns: string, ev: Event, was: EndpointMap, buffer: EndpointMap)
    ensures Processed(ns, ev, was, Batcher.ApplyOps(was, Batcher.Tag(ns, OpsOf(buffer, ev))), buffer,
                      ServersAfter(buffer, ev))
  {
    hide Batcher.ApplyOps, PartiallyReplaced, FirstNamedGone, NamespaceReset, ApplyAction;
    var ops := OpsOf(buffer, ev);
    OneOp(was, ns, ops);
    if ev.Apply? && ops != [] {
      ActionActs(was, ops[0].act);
      assert Usable(ev.server, ops[0].act.endpoint);
    } else if ev.InitApply? && Validated(ev.server).Some? {
      assert Usable(ev.server, Validated(ev.server).value);
    } else if ev.Delete? && ops != [] {
      ActionActs(was, ops[0].act);
    } else if ev.InitDone? {
      ResetResets(ns, was, buffer);
    }
  }

  lemma ResetResets(ns: string, eps: EndpointMap, servers: EndpointMap)
    ensures NamespaceReset(servers, ns, eps, Batcher.ApplyOp(eps, ns, Batcher.Reset(servers)))
  {}

  class EventProcessor {
    const namespace: string
    const batcher: ClusterUpdateBatcher
    var servers: EndpointMap

    constructor (namespace: string, batcher: ClusterUpdateBatcher)
      ensures this.namespace == namespace && this.batcher == batcher && servers == map[]
    {
      this.namespace, this.batcher, servers := namespace, batcher, map[];
    }

    /** Handles one event; the logical endpoints move by exactly the operations that it issues. */
    method ProcessEvent(ev: Event)
      requires batcher.clusterMap.Valid()
      modifies this, batcher, batcher.clusterMap
      ensures batcher.clusterMap.Valid()
      ensures servers == ServersAfter(old(servers), ev)
      ensures batcher.Logical() ==
              Batcher.ApplyOps(old(batcher.Logical()), Batcher.Tag(namespace, OpsOf(old(servers), ev)))
      ensures Processed(namespace, ev, old(batcher.Logical()), batcher.Logical(), old(servers), servers)
    {
      hide PartiallyReplaced, ApplyAction, Batcher.ApplyOps, ApplyBatch, Processed;
      OpsProcess(namespace, ev, batcher.Logical(), servers);
      OneOp(batcher.Logical(), namespace, OpsOf(servers, ev));
      match ev
      case Apply(s) =>
        var endpoint := Validated(s);
        if endpoint.None? { return; }
        batcher.Push(Upsert(endpoint.value));
      case Init =>
      case InitApply(s) =>
        var endpoint := Validated(s);
        if endpoint.None? { return; }
        servers := Buffer(servers, endpoint.value);
      case InitDone =>
        var replacement := New(batcher.clusterMap.h, servers);
        servers := map[];
        batcher.PartialReplace(replacement, Batcher.Owned(namespace));
      case Delete(s) =>
        if s.None? { return; }
        if s.value.endpoint.Some? {
          batcher.Push(RemoveByEndpoint(s.value.endpoint.value));
        } else if s.value.name.Some? {
          batcher.Push(RemoveByName(s.value.name.value));
        }
    }
  }

  lemma OneOp(eps: EndpointMap, ns: string, ops: seq<Batcher.Op>)
    ensures ops == [] ==> Batcher.ApplyOps(eps, Batcher.Tag(ns, ops)) == eps
    ensures |ops| == 1 ==> Batcher.ApplyOps(eps, Batcher.Tag(ns, ops)) == Batcher.ApplyOp(eps, ns, ops[0])
  {
    if |ops| == 1 {
      assert Batcher.Tag(ns, ops)[..0] == [];
    }
  }

  // ---- What a re-listing leaves ----

  /** Buffering a listing on top of what earlier, unfinished listings left. */
  function BufferAll(servers: EndpointMap, listing: seq<Endpoint>): EndpointMap {
    if listing == [] then servers
    else Buffer(BufferAll(servers, listing[..|listing| - 1]), listing[|listing| - 1])
  }

  lemma {:induction false} BufferAllKeepsOld(servers: EndpointMap, listing: seq<Endpoint>)
    ensures BufferAll(servers, listing) == BufferAll(map[], listing) + servers
  {
    if listing != [] {
      BufferAllKeepsOld(servers, listing[..|listing| - 1]);
    }
  }

  function ServersAfterAll(evs: seq<Event>): EndpointMap {
    if evs == [] then map[] else ServersAfter(ServersAfterAll(evs[..|evs| - 1]), evs[|evs| - 1])
  }

  /** The servers that events list, those fit for use. */
  function ListedBy(evs: seq<Event>): seq<Endpoint> {
    if evs == [] then []
    else
      var last := evs[|evs| - 1];
      ListedBy(evs[..|evs| - 1]) +
      if last.InitApply? && Validated(last.server).Some? then [Validated(last.server).value] else []
  }

  lemma BufferOne(servers: EndpointMap, listing: seq<Endpoint>, e: Endpoint)
    ensures BufferAll(servers, listing + [e]) == Buffer(BufferAll(servers, listing), e)
  {
    assert (listing + [e])[..|listing|] == listing;
  }

  lemma BufferNone(servers: EndpointMap)
    ensures BufferAll(servers, []) == servers
  {}

  lemma {:induction false} ListingIsBuffered(before: seq<Event>, during: seq<Event>)
    requires forall e :: e in during ==> !e.InitDone?
    ensures ServersAfterAll(before + during) == BufferAll(ServersAfterAll(before), ListedBy(during))
  {
    hide Buffer, Validated, BufferAll;
    BufferNone(ServersAfterAll(before));
    if during == [] {
      assert before + during == before;
    } else {
      var n := |during| - 1;
      assert during[n] in during && forall e :: e in during[..n] ==> e in during;
      ListingIsBuffered(before, during[..n]);
      var all := before + during;
      assert all[..|all| - 1] == before + during[..n] && all[|all| - 1] == during[n];
      if during[n].InitApply? && Validated(during[n].server).Some? {
        BufferOne(ServersAfterAll(before), ListedBy(during[..n]), Validated(during[n].server).value);
      } else {
        assert ListedBy(during[..n]) + [] == ListedBy(during[..n]);
      }
    }
  }

  /**
   * InitDone is meant to reset the namespace to the listing since Init. Init does not clear the
   * buffer, so the reset is to that listing exactly when everything an unfinished listing left
   * behind was listed again, with the same metadata.
   */
  lemma ResetMatchesListing(before: seq<Event>, during: seq<Event>)
    requires forall e :: e in during ==> !e.Init? && !e.InitDone?
    ensures var stale, listed := ServersAfterAll(before), BufferAll(map[], ListedBy(during));
            OpsOf(ServersAfterAll(before + ([Init] + during)), InitDone) == [Batcher.Reset(listed)] <==>
            forall a :: a in stale ==> Get(listed, a) == Some(stale[a])
  {
    hide BufferAll, ServersAfterAll;
    ListingIsBuffered(before, [Init] + during);
    ListedAfterInit(during);
    var stale, listed := ServersAfterAll(before), BufferAll(map[], ListedBy(during));
    BufferAllKeepsOld(stale, ListedBy(during));
    if forall a :: a in stale ==> Get(listed, a) == Some(stale[a]) {
      assert listed + stale == listed;
    } else {
      var a :| a in stale && Get(listed, a) != Some(stale[a]);
      assert Get(listed + stale, a) == Some(stale[a]);
    }
  }

  lemma {:induction false} ListedAfterInit(during: seq<Event>)
    ensures ListedBy([Init] + during) == ListedBy(during)
  {
    if during == [] {
      assert [Init] + during == [Init] && [Init][..0] == [];
    } else {
      var n := |during| - 1;
      ListedAfterInit(during[..n]);
      var all := [Init] + during;
      assert all[..|all| - 1] == [Init] + during[..n] && all[|all| - 1] == during[n];
    }
  }

  /** Once a listing is done, nothing of it is left for the next. */
  lemma DoneLeavesNothing(before: seq<Event>)
    ensures ServersAfterAll(before + [InitDone]) == map[]
  {
    assert (before + [InitDone])[..|before|] == before;
  }

  /** A listing that was cut short and restarted: the server it had seen is resurrected. */
  lemma StaleServerSurvives(e: Endpoint)
    ensures var s := Some(GameServer(true, Some(e), None));
            OpsOf(ServersAfterAll([Init, InitApply(s), Init]), InitDone) ==
              [Batcher.Reset(map[e.address := e.metadata])]
  {
    var s := Some(GameServer(true, Some(e), None));
    var evs := [Init, InitApply(s), Init];
    assert evs[..2] == [Init, InitApply(s)] && evs[..2][..1] == [Init] && evs[..2][..1][..0] == [];
    assert ServersAfterAll(evs[..2][..1]) == map[];
    assert ServersAfterAll(evs[..2]) == map[e.address := e.metadata];
  }
}
