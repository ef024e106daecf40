/**
 * ClusterMap (src/net/cluster.rs): endpoint sets by locality, the owner of each locality, the
 * cluster-wide token index, and a running count of endpoints.
 */
module Clusters {
  import opened Base
  import opened MultiMaps
  import opened Endpoints
  import opened EndpointSets
  import opened Localities
  import opened TokenIndex
  import Updates
  import Corrosion

  /** The remote server that feeds a locality; None for local sources. */
  type Owner = Option<nat>

  type Sets = map<Loc, EndpointSet>

  function ContentsOf(sets: Sets): (c: Contents)
    ensures c.Keys == sets.Keys
  {
    map l | l in sets :: sets[l].endpoints
  }

  // ---- Counting endpoints ----

  /** Every endpoint of every locality. */
  ghost function Everywhere(sets: Sets): set<(Loc, Address)> {
    set l, a | l in sets && a in sets[l].endpoints :: (l, a)
  }

  ghost function Total(sets: Sets): nat {
    |Everywhere(sets)|
  }

  ghost function At(l: Loc, addresses: set<Address>): set<(Loc, Address)> {
    set a | a in addresses :: (l, a)
  }

  lemma {:induction false} AtSize(l: Loc, addresses: set<Address>)
    ensures |At(l, addresses)| == |addresses|
  {
    if addresses == {} {
      assert At(l, addresses) == {};
    } else {
      var a :| a in addresses;
      AtSize(l, addresses - {a});
      assert At(l, addresses) == At(l, addresses - {a}) + {(l, a)};
    }
  }

  function SizeAt(sets: Sets, l: Loc): nat {
    if l in sets then |sets[l].endpoints| else 0
  }

  lemma EverywhereSplit(sets: Sets, l: Loc)
    requires l in sets
    ensures Everywhere(sets) == Everywhere(sets - {l}) + At(l, sets[l].endpoints.Keys)
    ensures Everywhere(sets - {l}) !! At(l, sets[l].endpoints.Keys)
  {
    var rest, here := Everywhere(sets - {l}), At(l, sets[l].endpoints.Keys);
    forall x ensures x in Everywhere(sets) <==> x in rest || x in here {
      assert x in Everywhere(sets) <==> x.0 in sets && x.1 in sets[x.0].endpoints;
      assert x in rest <==> x.0 in sets && x.0 != l && x.1 in sets[x.0].endpoints;
      assert x in here <==> x.0 == l && x.1 in sets[l].endpoints;
    }
  }

  /** Taking a locality out takes exactly its endpoints out. */
  lemma TotalWithout(sets: Sets, l: Loc)
    ensures Total(sets) == Total(sets - {l}) + SizeAt(sets, l)
  {
    hide Everywhere, At;
    if l in sets {
      EverywhereSplit(sets, l);
      AtSize(l, sets[l].endpoints.Keys);
      assert |sets[l].endpoints.Keys| == |sets[l].endpoints|;
    } else {
      assert sets - {l} == sets;
    }
  }

  lemma TotalWith(sets: Sets, l: Loc, s: EndpointSet)
    ensures Total(sets[l := s]) == Total(sets) - SizeAt(sets, l) + |s.endpoints|
    ensures Total(sets) >= SizeAt(sets, l)
  {
    TotalWithout(sets, l);
    TotalWithout(sets[l := s], l);
    Elsewhere(sets, l, s);
  }

  // ---- Listing endpoints in iteration order ----

  ghost function ListKeys(eps: EndpointMap, keys: seq<Address>): (r: seq<Endpoint>)
    requires forall a :: a in keys ==> a in eps
    ensures |r| == |keys|
  {
    if keys == [] then [] else [Endpoint(keys[0], eps[keys[0]])] + ListKeys(eps, keys[1..])
  }

  /** The endpoints at `keys`, in address order. */
  ghost function ListFrom(eps: EndpointMap, keys: set<Address>): (r: seq<Endpoint>)
    requires keys <= eps.Keys
    ensures |r| == |keys|
  {
    ListKeys(eps, Ordered(keys))
  }

  /** One set's endpoints in address order. */
  ghost function Listed(eps: EndpointMap): (r: seq<Endpoint>)
    ensures |r| == |eps|
  {
    assert |eps.Keys| == |eps|;
    ListFrom(eps, eps.Keys)
  }

  /** All endpoints, localities in the order the concurrent map iterates them. */
  ghost function Listing(sets: Sets, order: seq<Loc>): seq<Endpoint>
    requires forall l :: l in order ==> l in sets
  {
    if order == [] then [] else Listing(sets, order[..|order| - 1]) + Listed(sets[order[|order| - 1]].endpoints)
  }

  /** A set's endpoints, each once, from the least address to the greatest. */
  ghost predicate Lists(r: seq<Endpoint>, eps: EndpointMap) {
    && (forall e :: e in r <==> Get(eps, e.address) == Some(e.metadata))
    && (forall i, j :: 0 <= i < j < |r| ==> Leq(r[i].address, r[j].address) && r[i].address != r[j].address)
  }

  lemma {:induction false} KeysListed(eps: EndpointMap, keys: seq<Address>)
    requires forall a :: a in keys ==> a in eps
    ensures forall i :: 0 <= i < |keys| ==> ListKeys(eps, keys)[i] == Endpoint(keys[i], eps[keys[i]])
  {
    if keys != [] {
      KeysListed(eps, keys[1..]);
    }
  }

  lemma ListedLists(eps: EndpointMap)
    ensures Lists(Listed(eps), eps)
  {
    hide Leq, Ordered, ListKeys;
    KeysListed(eps, Ordered(eps.Keys));
    InKeyOrder(eps, Ordered(eps.Keys), Listed(eps));
  }

  lemma InKeyOrder(eps: EndpointMap, keys: seq<Address>, r: seq<Endpoint>)
    requires |r| == |keys| && (forall a :: a in keys <==> a in eps)
    requires forall i :: 0 <= i < |keys| ==> keys[i] in eps && r[i] == Endpoint(keys[i], eps[keys[i]])
    requires forall i, j :: 0 <= i < j < |keys| ==> Leq(keys[i], keys[j]) && keys[i] != keys[j]
    ensures Lists(r, eps)
  {
    hide Leq;
    forall e: Endpoint | Get(eps, e.address) == Some(e.metadata) ensures e in r {
      assert e.address in keys;
      var i :| 0 <= i < |keys| && keys[i] == e.address;
      assert r[i] == e;
    }
  }

  /** An endpoint of some locality. */
  ghost predicate Lives(sets: Sets, e: Endpoint) {
    exists l :: l in sets && Get(sets[l].endpoints, e.address) == Some(e.metadata)
  }

  lemma {:induction false} ListingLives(sets: Sets, order: seq<Loc>)
    requires forall l :: l in order ==> l in sets
    ensures forall e :: e in Listing(sets, order) <==>
              exists l :: l in order && Get(sets[l].endpoints, e.address) == Some(e.metadata)
  {
    hide Listed, Leq;
    if order != [] {
      var n := |order| - 1;
      ListingLives(sets, order[..n]);
      ListedLists(sets[order[n]].endpoints);
      assert order == order[..n] + [order[n]];
    }
  }

  /** The listing has every endpoint of every locality and no other. */
  lemma ListingIsAll(sets: Sets, order: seq<Loc>)
    requires Enumerates(order, sets.Keys)
    ensures forall e :: e in Listing(sets, order) <==> Lives(sets, e)
  {
    hide Listing;
    ListingLives(sets, order);
  }

  ghost predicate Enumerates(order: seq<Loc>, keys: set<Loc>) {
    NoDuplicates(order) && forall l :: l in order <==> l in keys
  }

  lemma {:induction false} ListingSize(sets: Sets, order: seq<Loc>)
    requires Enumerates(order, sets.Keys)
    ensures |Listing(sets, order)| == Total(sets)
    decreases |order|
  {
    hide Listed;
    if order == [] {
      assert forall l :: l in sets ==> l in order;
      assert Everywhere(sets) == {};
    } else {
      var n := |order| - 1;
      var last := order[n];
      var rest := sets - {last};
      forall l ensures l in order[..n] <==> l in rest {
        if l in order[..n] { assert l in order && l != last; }
        if l in rest {
          assert l in order;
          var i :| 0 <= i < |order| && order[i] == l;
          assert order[..n][i] == l;
        }
      }
      ListingSize(rest, order[..n]);
      ListingAgrees(sets, rest, order[..n]);
      TotalWithout(sets, last);
    }
  }

  lemma {:induction false} ListingAgrees(s: Sets, t: Sets, order: seq<Loc>)
    requires forall l :: l in order ==> l in s && l in t && s[l] == t[l]
    ensures Listing(s, order) == Listing(t, order)
  {
    if order != [] {
      ListingAgrees(s, t, order[..|order| - 1]);
    }
  }

  lemma {:induction false} ListingPrefix(sets: Sets, order: seq<Loc>, i: nat)
    requires i <= |order| && forall l :: l in order ==> l in sets
    ensures Listing(sets, order[..i]) <= Listing(sets, order)
  {
    hide Listed;
    if i < |order| {
      var n := |order| - 1;
      assert forall l :: l in order[..n] ==> l in order;
      assert order[..n][..i] == order[..i];
      ListingPrefix(sets, order[..n], i);
      assert Listing(sets, order[..n]) <= Listing(sets, order);
    } else {
      assert order[..i] == order;
    }
  }

  const CORROSION := Locality("corrosion", 9, None)

  class ClusterMap {
    const h: Hashing
    var sets: Sets
    var owners: map<Loc, Owner>
    var tokenMap: TokenMap
    var numEndpoints: nat
    var version: nat

    /** The changes of whole localities so far. */
    ghost var ops: seq<Op>

    /** The running count is the number of endpoints. */
    ghost predicate Valid()
      reads this
    {
      numEndpoints == Total(sets)
    }

    /** Every set's own index is exact, and contents and cluster-wide index are those of the changes. */
    ghost predicate Followed()
      reads this
    {
      Follows(h, sets, tokenMap, ops)
    }

    constructor (h: Hashing)
      ensures Valid() && this.h == h && sets == map[] && owners == map[] && tokenMap == map[]
      ensures Followed() && ops == []
    {
      this.h := h;
      sets, owners, tokenMap, numEndpoints, version, ops := map[], map[], map[], 0, 0, [];
      new;
      assert Everywhere(map[]) == {};
    }

    /** Stores a set and moves the count by the difference in size, never below zero. */
    method Store(l: Loc, s: EndpointSet, newLen: nat, oldLen: nat)
      requires Valid() && newLen == |s.endpoints| && oldLen == SizeAt(sets, l)
      modifies this`sets, this`numEndpoints, this`version
      ensures Valid() && sets == old(sets)[l := s] && version == old(version) + 1
    {
      TotalWith(sets, l, s);
      if newLen >= oldLen {
        numEndpoints := numEndpoints + (newLen - oldLen);
      } else {
        numEndpoints := numEndpoints - (oldLen - newLen);
      }
      version := version + 1;
      sets := sets[l := s];
    }

    /** The replacement itself, once the locality is known to be the caller's. */
    method Install(l: Loc, cluster: EndpointSet) returns (d: Delta)
      requires Valid()
      modifies this`sets, this`tokenMap, this`numEndpoints, this`version
      ensures Valid() && version == old(version) + 1
      ensures sets == old(sets)[l := if l in old(sets) then Replaced(h, old(sets)[l], cluster) else cluster]
      ensures tokenMap == Patched(old(tokenMap), TokensAt(old(sets), l), sets[l].tokenMap)
      ensures Reports(d, ViewAt(old(sets), l), View(cluster.endpoints))
    {
      hide Total, Replaced, Reports, View, Patched, Diff, TokenMapOf;
      var newLen := |cluster.endpoints|;
      if l in sets {
        var s, oldLen, diff;
        s, oldLen, diff, d := Replace(h, sets[l], cluster);
        LengthOfReplaced(h, sets[l], cluster);
        tokenMap := ApplyDiff(tokenMap, sets[l].tokenMap, s.tokenMap, diff);
        Store(l, s, newLen, oldLen);
      } else {
        tokenMap := tokenMap + cluster.tokenMap;
        PatchFromNothing(old(tokenMap), cluster.tokenMap);
        var up := CollectUpserted(map[], cluster.endpoints);
        d := Delta([], up);
        ReportsFirst(d, cluster.endpoints);
        Store(l, cluster, newLen, 0);
      }
    }

    /**
     * Replaces a locality's set, if it is free or fed by `remote`. The delta reports the change
     * in tokens; the index is patched from the old and new token maps.
     */
    method Apply(remote: Owner, l: Loc, cluster: EndpointSet) returns (accepted: bool, d: Delta)
      requires Valid()
      modifies this
      ensures Valid()
      ensures accepted <==> l !in old(owners) || old(owners)[l] == remote
      ensures !accepted ==>
              sets == old(sets) && owners == old(owners) && tokenMap == old(tokenMap) && version == old(version)
      ensures !accepted ==> d == Delta([], [])
      ensures accepted ==> owners == old(owners)[l := remote] && version == old(version) + 1
      ensures accepted ==>
              sets == old(sets)[l := if l in old(sets) then Replaced(h, old(sets)[l], cluster) else cluster]
      ensures accepted ==> tokenMap == Patched(old(tokenMap), TokensAt(old(sets), l), sets[l].tokenMap)
      ensures accepted ==> Reports(d, ViewAt(old(sets), l), View(cluster.endpoints))
      ensures ops == old(ops) + if accepted then [Put(l, cluster.endpoints)] else []
      ensures old(Followed()) && (accepted ==> IndexExact(h, cluster)) ==> Followed()
    {
      hide Total, Replaced, Reports, View, Patched, Follows, IndexExact;
      if l in owners {
        if owners[l] != remote {
          return false, Delta([], []);
        }
      } else {
        owners := owners[l := remote];
      }
      d := Install(l, cluster);
      accepted := true;
      ops := ops + [Put(l, cluster.endpoints)];
      if old(Followed()) && IndexExact(h, cluster) {
        ReplacedIsExact(h, old(sets), l, cluster);
        PutFollows(h, old(sets), old(tokenMap), old(ops), l, sets[l]);
      }
    }

    /** A provider resets the endpoints that are its own. */
    method PartialReplaceAt(l: Loc, s: EndpointSet, owned: Metadata -> bool)
      requires Valid()
      modifies this`sets, this`tokenMap, this`numEndpoints, this`version, this`ops
      ensures Valid()
      ensures sets == old(sets)[l := if l in old(sets)
                                     then Updated(h, old(sets)[l],
                                       PartiallyReplaced(old(sets)[l].endpoints, s.endpoints, owned))
                                     else s]
      ensures ResetTo(s.endpoints, owned, EndpointsAt(old(sets), l), sets[l].endpoints)
      ensures tokenMap == Patched(old(tokenMap), TokensAt(old(sets), l), sets[l].tokenMap)
      ensures version == old(version) + 1
      ensures ops == old(ops) + [Put(l, sets[l].endpoints)]
      ensures old(Followed()) && IndexExact(h, s) ==> Followed()
    {
      hide Total, TokenMapOf, View, Follows, IndexExact, Patched, ResetTo, PartiallyReplaced;
      PartialResets(EndpointsAt(sets, l), s.endpoints, owned);
      ReplaceNothing(s.endpoints, owned);
      if l in sets {
        var current, newLen, oldLen, diff := PartialReplace(h, sets[l], s, owned);
        tokenMap := ApplyDiff(tokenMap, sets[l].tokenMap, current.tokenMap, diff);
        Store(l, current, newLen, oldLen);
      } else {
        tokenMap := tokenMap + s.tokenMap;
        PatchFromNothing(old(tokenMap), s.tokenMap);
        Store(l, s, |s.endpoints|, 0);
      }
      ops := ops + [Put(l, sets[l].endpoints)];
      if old(Followed()) && IndexExact(h, s) {
        UpdatedIsExact(h, old(sets), l, s, sets[l]);
        PutFollows(h, old(sets), old(tokenMap), old(ops), l, sets[l]);
      }
    }

    /**
     * Applies a batch of provider actions; a locality left empty is removed. The token index is
     * not maintained here, as the source documents.
     */
    method BatchModify(l: Loc, batch: seq<Updates.Action>)
      requires Valid()
      modifies this`sets, this`owners, this`numEndpoints, this`version, this`ops
      ensures Valid()
      ensures EndpointsAt(sets, l) == Updates.ApplyBatch(EndpointsAt(old(sets), l), batch)
      ensures Updates.LastActionDecides(batch, EndpointsAt(old(sets), l), EndpointsAt(sets, l))
      ensures l in sets <==> EndpointsAt(sets, l) != map[]
      ensures if l in sets then sets == old(sets)[l := sets[l]] && owners == old(owners)
              else sets == old(sets) - {l} && owners == old(owners) - {l}
      ensures l in sets ==>
                var s := if l in old(sets) then old(sets)[l] else Fresh(h, map[]);
                sets[l] == s || sets[l] == Updated(h, s, sets[l].endpoints)
      ensures version == old(version) + if l in sets then 1 else 2
    {
      hide Total, TokenMapOf, View, Updates.ApplyBatch, Updates.LastActionDecides, Updated;
      Updates.BatchDecides(EndpointsAt(sets, l), batch);
      var s: EndpointSet;
      if l in sets {
        s := sets[l];
      } else {
        s := New(h, map[]);
      }
      var s', addedRemoved := ModifySet(h, s, batch);
      Settle(l, s', addedRemoved);
    }

    /** Stores a modified set, moves the count by what the batch gained, and drops an empty locality. */
    method Settle(l: Loc, s: EndpointSet, gained: int)
      requires Valid() && gained == |s.endpoints| - SizeAt(sets, l)
      modifies this`sets, this`owners, this`numEndpoints, this`version, this`ops
      ensures Valid()
      ensures sets == (if |s.endpoints| == 0 then old(sets) - {l} else old(sets)[l := s])
      ensures owners == (if |s.endpoints| == 0 then old(owners) - {l} else old(owners))
      ensures version == old(version) + if |s.endpoints| == 0 then 2 else 1
    {
      hide Total, SizeAt;
      TotalWith(sets, l, s);
      Elsewhere(sets, l, s);
      sets := sets[l := s];
      if gained > 0 {
        numEndpoints := numEndpoints + gained;
      } else {
        numEndpoints := numEndpoints - (-gained);
      }
      if |s.endpoints| == 0 {
        var _ := DoRemoveLocality(l);
      }
      version := version + 1;
    }

    method DoRemoveLocality(l: Loc) returns (r: Option<EndpointSet>)
      requires Valid()
      modifies this`sets, this`owners, this`numEndpoints, this`version, this`ops
      ensures Valid()
      ensures sets == old(sets) - {l} && owners == old(owners) - {l} && r == Get(old(sets), l)
      ensures version == old(version) + if r.Some? then 1 else 0
      ensures ops == old(ops) + [Drop(l)] && (old(Followed()) ==> Followed())
    {
      hide Total, Follows, SizeAt, ContentsOf;
      DropFollows(h, sets, tokenMap, ops, l);
      ops := ops + [Drop(l)];
      TotalWithout(sets, l);
      owners := owners - {l};
      r := Get(sets, l);
      sets := sets - {l};
      if r.Some? {
        version := version + 1;
        numEndpoints := numEndpoints - |r.value.endpoints|;
      }
    }

    /** Only the owner, or anyone if there is none, may remove a locality. */
    method RemoveLocality(remote: Owner, l: Loc) returns (r: Option<EndpointSet>)
      requires Valid()
      modifies this`sets, this`owners, this`numEndpoints, this`version, this`ops
      ensures Valid()
      ensures if l in old(owners) && old(owners)[l] != remote
              then r == None && sets == old(sets) && owners == old(owners) && version == old(version) && ops == old(ops)
              else r == Get(old(sets), l) && sets == old(sets) - {l} && owners == old(owners) - {l}
                   && version == old(version) + (if r.Some? then 1 else 0) && ops == old(ops) + [Drop(l)]
      ensures old(Followed()) ==> Followed()
    {
      hide Follows;
      if l in owners && owners[l] != remote {
        return None;
      }
      r := DoRemoveLocality(l);
    }

    /** Moves the set without a locality, if there is one. */
    method MoveUnlocated(to: Locality)
      requires Valid()
      modifies this`sets, this`numEndpoints, this`version
      ensures Valid()
      ensures sets == (if None in old(sets) then (old(sets) - {None})[Some(to) := old(sets)[None]] else old(sets))
      ensures version == old(version) + if None in old(sets) then 1 else 0
    {
      hide Total;
      if None in sets {
        var s := sets[None];
        TotalWithout(sets, None);
        sets := sets - {None};
        TotalWith(sets, Some(to), s);
        var replaced := Get(sets, Some(to));
        version := version + 1;
        sets := sets[Some(to) := s];
        if replaced.Some? {
          numEndpoints := numEndpoints - |replaced.value.endpoints|;
        }
      }
    }

    /** The endpoints without a locality move to `to`, over whatever was there. */
    method UpdateUnlocatedEndpoints(remote: Owner, to: Locality)
      requires Valid()
      modifies this`sets, this`owners, this`numEndpoints, this`version, this`ops
      ensures Valid() && (old(Followed()) ==> Followed())
      ensures if None in old(owners) && old(owners)[None] != remote
              then sets == old(sets) && owners == old(owners) && version == old(version) && ops == old(ops)
              else
                && ContentsOf(sets) == Relocated(ContentsOf(old(sets)), to)
                && sets == (if None in old(sets) then (old(sets) - {None})[Some(to) := old(sets)[None]] else old(sets))
                && owners == (old(owners) - {None})[Some(to) := remote]
                && version == old(version) + (if None in old(sets) then 1 else 0) && ops == old(ops) + [Relocate(to)]
    {
      hide Total, Follows, ContentsOf, Relocated;
      if None in owners && owners[None] != remote {
        return;
      }
      RelocateFollows(h, sets, tokenMap, ops, to);
      ops := ops + [Relocate(to)];
      owners := (owners - {None})[Some(to) := remote];
      MoveUnlocated(to);
    }

    method RemoveContributor(remote: Owner)
      modifies this`owners
      ensures owners == map l | l in old(owners) && old(owners)[l] != remote :: old(owners)[l]
    {
      owners := map l | l in owners && owners[l] != remote :: owners[l];
    }

    /**
     * Applies a change stream to the dedicated locality; no version is bumped. `own` and `shared`
     * are what the set's and the cluster-wide token map index before.
     */
    method CorrosionApply(events: seq<Corrosion.StreamEvent>, ghost own: set<(U64, Address)>,
                          ghost shared: set<(U64, Address)>)
      requires Valid() && Indexes(tokenMap, shared) && Indexes(TokensAt(sets, Some(CORROSION)), own)
      modifies this`sets, this`tokenMap, this`numEndpoints
      ensures Valid()
      ensures sets - {Some(CORROSION)} == old(sets) - {Some(CORROSION)} && Some(CORROSION) in sets
      ensures Corrosion.Streamed(GetOr(old(sets), Some(CORROSION), Fresh(h, map[])), events, sets[Some(CORROSION)])
      ensures Corrosion.LastRowDecides(events, EndpointsAt(old(sets), Some(CORROSION)),
                                       sets[Some(CORROSION)].endpoints)
      ensures Indexes(sets[Some(CORROSION)].tokenMap, Corrosion.PairsAfterAll(
                h.token, EndpointsAt(old(sets), Some(CORROSION)), own, Corrosion.ChangesIn(events)))
      ensures Indexes(tokenMap, Corrosion.PairsAfterAll(
                h.token, EndpointsAt(old(sets), Some(CORROSION)), shared, Corrosion.ChangesIn(events)))
    {
      hide Total, Indexes, Corrosion.LastRowDecides, Corrosion.EpsAfterAll, Corrosion.PairsAfterAll,
           Corrosion.ChangesIn, TokenMapOf;
      var l := Some(CORROSION);
      var s: EndpointSet;
      if l in sets {
        s := sets[l];
      } else {
        s := New(h, map[]);
        NothingToIndex(h);
      }
      TotalWith(sets, l, s);
      var s', tm, diff := Corrosion.CorrosionApply(h, s, tokenMap, events, own, shared);
      TotalWith(sets, l, s');
      tokenMap := tm;
      sets := sets[l := s'];
      if diff >= 0 {
        numEndpoints := numEndpoints + diff;
      } else {
        numEndpoints := numEndpoints - (-diff);
      }
      Elsewhere(old(sets), l, s');
    }

    /** The i-th endpoint of the listing, found by skipping whole sets. */
    method NthEndpoint(order: seq<Loc>, index: nat) returns (r: Option<Endpoint>)
      requires Valid() && Enumerates(order, sets.Keys)
      ensures r.Some? <==> index < numEndpoints
      ensures |Listing(sets, order)| == numEndpoints
      ensures r.Some? ==> r.value == Listing(sets, order)[index] && Lives(sets, r.value)
    {
      hide Listed, Total, Lives;
      ListingIsAll(sets, order);
      ListingSize(sets, order);
      var left := index;
      for i := 0 to |order|
        invariant 0 <= left && left + |Listing(sets, order[..i])| == index
      {
        assert order[..i + 1][..i] == order[..i];
        var eps := sets[order[i]].endpoints;
        if left < |eps| {
          var e := NthInOrder(eps, left);
          ListingPrefix(sets, order, i + 1);
          return Some(e);
        }
        left := left - |eps|;
      }
      assert order[..|order|] == order;
      return None;
    }

    /** All endpoints, in the same order. */
    method AllEndpoints(order: seq<Loc>) returns (r: seq<Endpoint>)
      requires Enumerates(order, sets.Keys)
      ensures r == Listing(sets, order) && forall e :: e in r <==> Lives(sets, e)
    {
      hide Listed, Lives;
      ListingIsAll(sets, order);
      r := [];
      for i := 0 to |order|
        invariant r == Listing(sets, order[..i])
      {
        assert order[..i + 1][..i] == order[..i];
        var eps := InOrder(sets[order[i]].endpoints);
        r := r + eps;
      }
      assert order[..|order|] == order;
    }

    /** Appends the addresses indexed under the token's hash. */
    method AddressesForToken(token: Token, addrs: seq<Address>) returns (addrs': seq<Address>)
      ensures addrs <= addrs'
      ensures forall a :: a in addrs'[|addrs|..] <==> a in GetOr(tokenMap, h.token(token), {})
      ensures NoDuplicates(addrs'[|addrs|..])
      ensures Followed() && AlwaysSolo(h.token, ops) ==>
                forall a :: a in Holders(ContentsOf(sets), token) ==> a in addrs'[|addrs|..]
      ensures Followed() && AlwaysSolo(h.token, ops) && (forall op :: op in ops ==> op.Put?)
              && InjectiveOn(h.token, TokensOf(ContentsOf(sets)) + {token}) ==>
                forall a :: a in addrs'[|addrs|..] <==> a in Holders(ContentsOf(sets), token)
    {
      hide AlwaysSolo, TokensOf, InjectiveOn, Holders, IndexExact;
      if Followed() && AlwaysSolo(h.token, ops) {
        RunLookup(h.token, ops, token);
      }
      addrs' := addrs;
      var found := GetOr(tokenMap, h.token(token), {});
      var todo := found;
      while todo != {}
        invariant todo <= found && addrs <= addrs'
        invariant forall a :: a in addrs'[|addrs|..] <==> a in found - todo
        invariant NoDuplicates(addrs'[|addrs|..])
      {
        var a :| a in todo;
        assert (addrs' + [a])[|addrs|..] == addrs'[|addrs|..] + [a];
        NoDuplicatesAppend(addrs'[|addrs|..], a);
        addrs' := addrs' + [a];
        todo := todo - {a};
      }
    }
  }

  function TokensAt(sets: Sets, l: Loc): TokenMap {
    if l in sets then sets[l].tokenMap else map[]
  }

  function EndpointsAt(sets: Sets, l: Loc): EndpointMap {
    if l in sets then sets[l].endpoints else map[]
  }

  function ViewAt(sets: Sets, l: Loc): TokenView {
    View(EndpointsAt(sets, l))
  }

  /** The sets and the cluster-wide index are what the changes made of them, and each set's index is exact. */
  ghost predicate Follows(h: Hashing, sets: Sets, tokenMap: TokenMap, ops: seq<Op>) {
    && (forall l :: l in sets ==> IndexExact(h, sets[l]))
    && DoAll(h.token, ops) == Indexed(ContentsOf(sets), tokenMap)
  }

  lemma PutFollows(h: Hashing, sets: Sets, tokenMap: TokenMap, ops: seq<Op>, l: Loc, s: EndpointSet)
    requires Follows(h, sets, tokenMap, ops) && IndexExact(h, s)
    ensures Follows(h, sets[l := s], Patched(tokenMap, TokensAt(sets, l), s.tokenMap), ops + [Put(l, s.endpoints)])
  {
    hide DoAll, TokenMapOf, Patched;
    DoLast(h.token, ops, Put(l, s.endpoints));
    assert ContentsOf(sets[l := s]) == ContentsOf(sets)[l := s.endpoints];
    NothingToIndex(h);
    assert TokensAt(sets, l) == TokenMapOf(h.token, GetOr(ContentsOf(sets), l, map[]));
  }

  lemma DropFollows(h: Hashing, sets: Sets, tokenMap: TokenMap, ops: seq<Op>, l: Loc)
    ensures Follows(h, sets, tokenMap, ops) ==> Follows(h, sets - {l}, tokenMap, ops + [Drop(l)])
    ensures l in sets ==> SizeAt(sets, l) == |sets[l].endpoints|
    ensures l !in sets ==> SizeAt(sets, l) == 0
  {
    hide DoAll, IndexExact;
    DoLast(h.token, ops, Drop(l));
    assert ContentsOf(sets - {l}) == ContentsOf(sets) - {l};
  }

  lemma RelocateFollows(h: Hashing, sets: Sets, tokenMap: TokenMap, ops: seq<Op>, to: Locality)
    ensures var sets' := if None in sets then (sets - {None})[Some(to) := sets[None]] else sets;
            && ContentsOf(sets') == Relocated(ContentsOf(sets), to)
            && (Follows(h, sets, tokenMap, ops) ==> Follows(h, sets', tokenMap, ops + [Relocate(to)]))
  {
    hide DoAll, IndexExact;
    DoLast(h.token, ops, Relocate(to));
    var sets' := if None in sets then (sets - {None})[Some(to) := sets[None]] else sets;
    assert ContentsOf(sets') == Relocated(ContentsOf(sets), to);
  }

  lemma NothingToIndex(h: Hashing)
    ensures TokenMapOf(h.token, map[]) == map[] && Indexes<U64, Address>(map[], Pairs(h.token, map[]))
  {
    IndexUnique(TokenMapOf(h.token, map[]), map[], Pairs(h.token, map[]));
  }

  lemma ReplacedIsExact(h: Hashing, sets: Sets, l: Loc, cluster: EndpointSet)
    requires IndexExact(h, cluster)
    ensures var s := if l in sets then Replaced(h, sets[l], cluster) else cluster;
            IndexExact(h, s) && s.endpoints == cluster.endpoints
  {}

  lemma UpdatedIsExact(h: Hashing, sets: Sets, l: Loc, s: EndpointSet, s': EndpointSet)
    requires IndexExact(h, s) && (if l in sets then s' == Updated(h, sets[l], s'.endpoints) else s' == s)
    ensures IndexExact(h, s')
  {}

  lemma LengthOfReplaced(h: Hashing, s: EndpointSet, r: EndpointSet)
    ensures Replaced(h, s, r).endpoints == r.endpoints
  {}

  lemma PatchFromNothing(index: TokenMap, now: TokenMap)
    ensures index + now == Patched(index, map[], now)
  {
    assert index - {} == index;
  }

  lemma ReportsFirst(d: Delta, eps: EndpointMap)
    requires d.removed == [] && NoDuplicates(d.upserted)
    requires forall x :: x in d.upserted <==> Get(View(eps), x.0) == Some(x.1) && Get(View(map[]), x.0) != Some(x.1)
    ensures Reports(d, View(map[]), View(eps))
  {}

  /** One batch through a write guard on one set. */
  method ModifySet(h: Hashing, s: EndpointSet, batch: seq<Updates.Action>) returns (s': EndpointSet, addedRemoved: int)
    ensures s'.endpoints == Updates.ApplyBatch(s.endpoints, batch)
    ensures s' == s || s' == Updated(h, s, s'.endpoints)
    ensures addedRemoved == |s'.endpoints| - |s.endpoints|
  {
    hide Updates.ApplyBatch, Updates.LastActionDecides, TokenMapOf, View;
    var guard := new Updates.EndpointSetWriteGuard(s);
    addedRemoved := Updates.ApplyUpdateBatchToGuard(guard, batch);
    s' := guard.Close(h, s);
  }

  lemma ListStep(eps: EndpointMap, s: set<Address>, a: Address)
    requires s <= eps.Keys && IsFirst(a, s)
    ensures ListFrom(eps, s) == [Endpoint(a, eps[a])] + ListFrom(eps, s - {a})
  {
    FirstUnique(a, s);
    assert Ordered(s) == [a] + Ordered(s - {a});
    assert Ordered(s)[1..] == Ordered(s - {a});
  }

  /** The BTreeMap iterator, run to the end. */
  method InOrder(eps: EndpointMap) returns (r: seq<Endpoint>)
    ensures r == Listed(eps) && Lists(r, eps)
  {
    hide ListFrom, Leq, Lists;
    ListedLists(eps);
    r := [];
    var todo := eps.Keys;
    while todo != {}
      invariant todo <= eps.Keys
      invariant r + ListFrom(eps, todo) == ListFrom(eps, eps.Keys)
    {
      FirstExists(todo);
      var a :| a in todo && forall b :: b in todo ==> Leq(a, b);
      ListStep(eps, todo, a);
      r := r + [Endpoint(a, eps[a])];
      todo := todo - {a};
    }
  }

  /** The BTreeMap iterator, advanced `n` times. */
  method NthInOrder(eps: EndpointMap, n: nat) returns (e: Endpoint)
    requires n < |eps|
    ensures e == Listed(eps)[n]
  {
    var all := InOrder(eps);
    e := all[n];
  }
}
