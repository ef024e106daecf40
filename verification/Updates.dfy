/**
 * Incremental updates to one endpoint set: the write guard, and batches of provider actions
 * (src/net/cluster.rs).
 */
module Updates {
  import opened Base
  import opened Endpoints
  import opened EndpointSets

  datatype Action = Upsert(endpoint: Endpoint) | RemoveByEndpoint(gone: Endpoint) | RemoveByName(name: string)

  /** A JSON string compared with the endpoint's own "name". */
  predicate HasName(md: Metadata, name: string) {
    Get(md.unknown, "name") == Some(Str(name))
  }

  function Named(eps: EndpointMap, name: string): set<Address> {
    set a | a in eps && HasName(eps[a], name)
  }

  /** One action on its own. A name removes only the least address that carries it. */
  ghost function ApplyAction(eps: EndpointMap, act: Action): EndpointMap {
    match act
    case Upsert(e) => eps[e.address := e.metadata]
    case RemoveByEndpoint(e) => eps - {e.address}
    case RemoveByName(n) => if Named(eps, n) == {} then eps else eps - {First(Named(eps, n))}
  }

  /** The first address, in order, whose metadata has the name goes; nothing does if there is none. */
  ghost predicate FirstNamedGone(name: string, was: EndpointMap, now: EndpointMap) {
    if exists a :: a in was && Get(was[a].unknown, "name") == Some(Str(name))
    then exists a ::
           && a in was && Get(was[a].unknown, "name") == Some(Str(name)) && now == was - {a}
           && forall b :: b in was && Get(was[b].unknown, "name") == Some(Str(name)) ==> Leq(a, b)
    else now == was
  }

  /** What an action must do. */
  ghost predicate Acted(act: Action, was: EndpointMap, now: EndpointMap) {
    match act
    case Upsert(e) => now == was[e.address := e.metadata]
    case RemoveByEndpoint(e) => now == was - {e.address}
    case RemoveByName(n) => FirstNamedGone(n, was, now)
  }

  lemma ActionActs(eps: EndpointMap, act: Action)
    ensures Acted(act, eps, ApplyAction(eps, act))
  {
    hide Leq;
    if act.RemoveByName? {
      var named := Named(eps, act.name);
      assert forall a :: a in named <==> a in eps && Get(eps[a].unknown, "name") == Some(Str(act.name));
      if named != {} {
        assert IsFirst(First(named), named);
      }
    }
  }

  /** Actions applied one after the other, each immediately. */
  ghost function ApplyBatch(eps: EndpointMap, batch: seq<Action>): EndpointMap {
    if batch == [] then eps else ApplyAction(ApplyBatch(eps, batch[..|batch| - 1]), batch[|batch| - 1])
  }

  /** However a run of actions is cut into batches, the outcome is the same. */
  lemma {:induction false} BatchSplit(eps: EndpointMap, a: seq<Action>, b: seq<Action>)
    ensures ApplyBatch(eps, a + b) == ApplyBatch(ApplyBatch(eps, a), b)
  {
    if b == [] {
      assert a + b == a;
    } else {
      var n := |b| - 1;
      assert (a + b)[..|a + b| - 1] == a + b[..n];
      BatchSplit(eps, a, b[..n]);
    }
  }

  // ---- What a batch means, address by address ----

  /** The action sets or removes `a` by its address. */
  predicate About(act: Action, a: Address) {
    (act.Upsert? && act.endpoint.address == a) || (act.RemoveByEndpoint? && act.gone.address == a)
  }

  ghost predicate LastAbout(batch: seq<Action>, a: Address, i: int) {
    0 <= i < |batch| && About(batch[i], a) && forall j :: i < j < |batch| ==> !About(batch[j], a)
  }

  predicate Names(act: Action, md: Option<Metadata>) {
    act.RemoveByName? && md.Some? && Get(md.value.unknown, "name") == Some(Str(act.name))
  }

  /** What an action about an address leaves there. */
  function Left(act: Action): Option<Metadata> {
    if act.Upsert? then Some(act.endpoint.metadata) else None
  }

  /** What was put is still there, unless a later action removed it by its name. */
  ghost predicate Kept(later: seq<Action>, put: Option<Metadata>, now: Option<Metadata>) {
    && (now == put || now == None)
    && ((forall k :: 0 <= k < |later| ==> !Names(later[k], put)) ==> now == put)
  }

  /** The last action about an address decides, names aside. */
  ghost predicate BatchedAt(batch: seq<Action>, was: EndpointMap, now: EndpointMap, a: Address) {
    && ((forall i :: 0 <= i < |batch| ==> !About(batch[i], a)) ==> Kept(batch, Get(was, a), Get(now, a)))
    && forall i :: LastAbout(batch, a, i) ==>
         Kept(batch[i + 1..], Left(batch[i]), Get(now, a))
  }

  ghost predicate LastActionDecides(batch: seq<Action>, was: EndpointMap, now: EndpointMap) {
    forall a :: BatchedAt(batch, was, now, a)
  }

  lemma {:induction false} BatchDecides(eps: EndpointMap, batch: seq<Action>)
    ensures LastActionDecides(batch, eps, ApplyBatch(eps, batch))
  {
    hide ApplyAction, Acted, BatchedAt;
    if batch == [] {
      forall a ensures BatchedAt([], eps, eps, a) {
        NothingBatched(eps, a);
      }
    } else {
      var n := |batch| - 1;
      var mid := ApplyBatch(eps, batch[..n]);
      BatchDecides(eps, batch[..n]);
      ActionActs(mid, batch[n]);
      forall a ensures BatchedAt(batch, eps, ApplyBatch(eps, batch), a) {
        BatchedLast(eps, batch, n, mid, ApplyBatch(eps, batch), a);
      }
    }
  }

  lemma NothingBatched(eps: EndpointMap, a: Address)
    ensures BatchedAt([], eps, eps, a)
  {}

  lemma BatchedLast(eps: EndpointMap, batch: seq<Action>, n: nat, mid: EndpointMap, now: EndpointMap, a: Address)
    requires |batch| == n + 1 && BatchedAt(batch[..n], eps, mid, a) && Acted(batch[n], mid, now)
    ensures BatchedAt(batch, eps, now, a)
  {
    hide Kept, Acted, Names, About, Left;
    if !About(batch[n], a) && forall i :: 0 <= i < |batch| ==> !About(batch[i], a) {
      ActedAt(batch[n], mid, now, a);
      assert forall i :: 0 <= i < n ==> batch[..n][i] == batch[i];
      KeptLonger(batch[..n], Get(eps, a), Get(mid, a), Get(now, a), batch[n]);
      assert batch[..n] + [batch[n]] == batch;
    }
    forall i | LastAbout(batch, a, i) ensures Kept(batch[i + 1..], Left(batch[i]), Get(now, a)) {
      BatchedSince(eps, batch, n, mid, now, a, i);
    }
  }

  lemma BatchedSince(eps: EndpointMap, batch: seq<Action>, n: nat, mid: EndpointMap, now: EndpointMap, a: Address,
                     i: int)
    requires |batch| == n + 1 && BatchedAt(batch[..n], eps, mid, a) && Acted(batch[n], mid, now)
    requires LastAbout(batch, a, i)
    ensures Kept(batch[i + 1..], Left(batch[i]), Get(now, a))
  {
    hide Kept, Acted, Names, About, Left;
    ActedAt(batch[n], mid, now, a);
    if i == n {
      assert batch[n + 1..] == [];
    } else {
      assert LastAbout(batch[..n], a, i) && batch[..n][i] == batch[i];
      KeptLonger(batch[..n][i + 1..], Left(batch[i]), Get(mid, a), Get(now, a), batch[n]);
      assert batch[..n][i + 1..] + [batch[n]] == batch[i + 1..];
    }
  }

  /** One action, at one address. */
  lemma ActedAt(act: Action, was: EndpointMap, now: EndpointMap, a: Address)
    requires Acted(act, was, now)
    ensures About(act, a) ==> Kept([], Left(act), Get(now, a))
    ensures !About(act, a) ==> Get(now, a) == Get(was, a) || (Get(now, a) == None && Names(act, Get(was, a)))
  {
    hide Leq;
  }

  lemma KeptLonger(later: seq<Action>, put: Option<Metadata>, mid: Option<Metadata>, now: Option<Metadata>, act: Action)
    requires Kept(later, put, mid) && (now == mid || (now == None && Names(act, mid)))
    ensures Kept(later + [act], put, now)
  {
    var all := later + [act];
    assert all[|later|] == act && forall k :: 0 <= k < |later| ==> all[k] == later[k];
  }

  class EndpointSetWriteGuard {
    var endpoints: EndpointMap
    var needsUpdate: bool

    constructor (s: EndpointSet)
      ensures endpoints == s.endpoints && !needsUpdate
    {
      endpoints, needsUpdate := s.endpoints, false;
    }

    method ReplaceEndpoint(e: Endpoint) returns (previous: Option<Endpoint>)
      modifies this
      ensures endpoints == old(endpoints)[e.address := e.metadata] && needsUpdate
      ensures previous.Some? <==> e.address in old(endpoints)
      ensures previous.Some? ==> previous.value == Endpoint(e.address, old(endpoints)[e.address])
    {
      needsUpdate := true;
      previous := if e.address in endpoints then Some(Endpoint(e.address, endpoints[e.address])) else None;
      endpoints := endpoints[e.address := e.metadata];
    }

    method RemoveEndpoint(e: Endpoint) returns (found: bool)
      modifies this
      ensures endpoints == old(endpoints) - {e.address} && needsUpdate
      ensures found == (e.address in old(endpoints))
    {
      needsUpdate := true;
      found := e.address in endpoints;
      endpoints := endpoints - {e.address};
    }

    /** Walks the addresses in order and removes the first whose metadata has the name. */
    method RemoveNamed(name: string) returns (found: bool)
      modifies this
      ensures endpoints == ApplyAction(old(endpoints), RemoveByName(name))
      ensures FirstNamedGone(name, old(endpoints), endpoints)
      ensures found <==> Named(old(endpoints), name) != {}
      ensures needsUpdate == (found || old(needsUpdate))
    {
      hide FirstNamedGone;
      ActionActs(endpoints, RemoveByName(name));
      var todo := endpoints.Keys;
      while todo != {}
        invariant todo <= endpoints.Keys && endpoints == old(endpoints) && needsUpdate == old(needsUpdate)
        invariant Named(endpoints, name) <= todo
      {
        FirstExists(todo);
        var a :| a in todo && forall b :: b in todo ==> Leq(a, b);
        if HasName(endpoints[a], name) {
          FirstUnique(a, Named(endpoints, name));
          needsUpdate := true;
          endpoints := endpoints - {a};
          return true;
        }
        todo := todo - {a};
      }
      return false;
    }

    /** The guard is dropped: rebuild only if something was touched. */
    method Close(h: Hashing, s: EndpointSet) returns (s': EndpointSet)
      requires needsUpdate || endpoints == s.endpoints
      ensures s' == Closed(h, s, endpoints, needsUpdate)
    {
      s' := s;
      if needsUpdate {
        s' := Update(h, s.(endpoints := endpoints));
      }
    }
  }

  ghost function Closed(h: Hashing, s: EndpointSet, eps: EndpointMap, needsUpdate: bool): EndpointSet {
    if needsUpdate then Updated(h, s, eps) else s
  }

  method ApplyOne(guard: EndpointSetWriteGuard, act: Action) returns (gained: int)
    modifies guard
    ensures guard.endpoints == ApplyAction(old(guard.endpoints), act)
    ensures Acted(act, old(guard.endpoints), guard.endpoints)
    ensures gained == |guard.endpoints| - |old(guard.endpoints)|
    ensures guard.needsUpdate || (guard.endpoints == old(guard.endpoints) && !old(guard.needsUpdate))
  {
    hide Named, HasName, FirstNamedGone;
    gained := 0;
    match act
    case Upsert(e) =>
      var previous := guard.ReplaceEndpoint(e);
      if previous.None? {
        gained := 1;
      }
      assert guard.endpoints.Keys == old(guard.endpoints.Keys) + {e.address};
    case RemoveByEndpoint(e) =>
      var found := guard.RemoveEndpoint(e);
      if found {
        gained := -1;
      }
      assert guard.endpoints.Keys == old(guard.endpoints.Keys) - {e.address};
    case RemoveByName(n) =>
      NamedIn(guard.endpoints, n);
      var found := guard.RemoveNamed(n);
      if found {
        gained := -1;
        assert guard.endpoints.Keys == old(guard.endpoints.Keys) - {First(Named(old(guard.endpoints), n))};
      }
  }

  lemma NamedIn(eps: EndpointMap, name: string)
    ensures Named(eps, name) != {} ==> First(Named(eps, name)) in eps
  {}

  /** Runs a batch through a guard; the result is how many endpoints were gained. */
  method ApplyUpdateBatchToGuard(guard: EndpointSetWriteGuard, batch: seq<Action>) returns (addedRemoved: int)
    modifies guard
    ensures guard.endpoints == ApplyBatch(old(guard.endpoints), batch)
    ensures LastActionDecides(batch, old(guard.endpoints), guard.endpoints)
    ensures addedRemoved == |guard.endpoints| - |old(guard.endpoints)|
    ensures guard.needsUpdate || (guard.endpoints == old(guard.endpoints) && !old(guard.needsUpdate))
  {
    hide ApplyAction, LastActionDecides;
    BatchDecides(guard.endpoints, batch);
    addedRemoved := 0;
    for i := 0 to |batch|
      invariant guard.endpoints == ApplyBatch(old(guard.endpoints), batch[..i])
      invariant addedRemoved == |guard.endpoints| - |old(guard.endpoints)|
      invariant guard.needsUpdate || (guard.endpoints == old(guard.endpoints) && !old(guard.needsUpdate))
    {
      assert batch[..i + 1][..i] == batch[..i];
      var gained := ApplyOne(guard, batch[i]);
      addedRemoved := addedRemoved + gained;
    }
    assert batch[..|batch|] == batch;
  }
}
