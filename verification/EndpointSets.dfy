/**
 * EndpointSet (src/net/cluster.rs): the endpoints of one locality, with an index from token hash
 * to addresses, a content hash that serves as version, and a memoized encoding. A set is a plain
 * struct owned by its map entry, so it is a value here; operations return the new value.
 */
module EndpointSets {
  import opened Base
  import opened MultiMaps
  import opened Endpoints
  import opened Localities

  /** The two uses of gxhash: of one token, and of a whole set (addresses and tokens only). */
  datatype Hashing = Hashing(token: TokenHash, content: TokenView -> U64)

  type TokenMap = MultiMap<U64, Address>

  /** The xDS Cluster resource, before its bytes. */
  datatype Resource = Resource(locality: Option<Locality>, endpoints: EndpointMap)

  datatype Encoded = Encoded(version: U64, resource: Resource)

  datatype EndpointSet = EndpointSet(
    endpoints: EndpointMap, tokenMap: TokenMap, hash: U64, changeId: nat, cache: Option<Encoded>)

  // ---- The simple forms ----

  function Hashes(h: TokenHash, tokens: set<Token>): set<U64> {
    set t | t in tokens :: h(t)
  }

  /** Every (token hash, address) of the endpoints. */
  function Pairs(h: TokenHash, eps: EndpointMap): set<(U64, Address)> {
    set a, t | a in eps && t in eps[a].tokens :: (h(t), a)
  }

  /** The token map the endpoints call for. */
  ghost function TokenMapOf(h: TokenHash, eps: EndpointMap): TokenMap {
    Index(Pairs(h, eps))
  }

  /** The set rebuilt around `eps`, its hash computed. */
  ghost function Updated(h: Hashing, s: EndpointSet, eps: EndpointMap): EndpointSet {
    s.(endpoints := eps, tokenMap := TokenMapOf(h.token, eps), hash := h.content(View(eps)))
  }

  ghost function Fresh(h: Hashing, eps: EndpointMap): EndpointSet {
    EndpointSet(eps, TokenMapOf(h.token, eps), h.content(View(eps)), 0, None)
  }

  ghost predicate IndexExact(h: Hashing, s: EndpointSet) {
    s.tokenMap == TokenMapOf(h.token, s.endpoints)
  }

  ghost predicate HashTrue(h: Hashing, s: EndpointSet) {
    s.hash == h.content(View(s.endpoints))
  }

  /** The memo was encoded from content with the memo's version. */
  ghost predicate CacheTrue(h: Hashing, s: EndpointSet) {
    s.cache.Some? ==> s.cache.value.version == h.content(View(s.cache.value.resource.endpoints))
  }

  lemma PairIn(h: TokenHash, eps: EndpointMap, k: U64, a: Address)
    ensures (k, a) in Pairs(h, eps) <==> a in eps && k in Hashes(h, eps[a].tokens)
  {
    if a in eps && k in Hashes(h, eps[a].tokens) {
      var t :| t in eps[a].tokens && h(t) == k;
      assert (h(t), a) in Pairs(h, eps);
    }
  }

  // ---- Building the index ----

  /** The entries of one address. */
  function Entries(h: TokenHash, a: Address, tokens: set<Token>): set<(U64, Address)> {
    set t | t in tokens :: (h(t), a)
  }

  lemma EntryIn(h: TokenHash, a: Address, tokens: set<Token>, x: (U64, Address))
    ensures x in Entries(h, a, tokens) <==> x.1 == a && x.0 in Hashes(h, tokens)
  {
    if x.1 == a && x.0 in Hashes(h, tokens) {
      var t :| t in tokens && h(t) == x.0;
      assert (h(t), a) in Entries(h, a, tokens);
    }
  }

  lemma PairsSplit(h: TokenHash, eps: EndpointMap, a: Address)
    requires a in eps
    ensures Pairs(h, eps) == Pairs(h, eps - {a}) + set t | t in eps[a].tokens :: (h(t), a)
  {
    forall x | x in Pairs(h, eps) ensures x in Pairs(h, eps - {a}) + set t | t in eps[a].tokens :: (h(t), a) {
      PairIn(h, eps, x.0, x.1);
      PairIn(h, eps - {a}, x.0, x.1);
      if x.1 == a {
        var t :| t in eps[a].tokens && h(t) == x.0;
      }
    }
    forall x | x in Pairs(h, eps - {a}) ensures x in Pairs(h, eps) {
      PairIn(h, eps, x.0, x.1);
      PairIn(h, eps - {a}, x.0, x.1);
    }
  }

  /** Adds one endpoint's tokens to the index under construction. */
  method IndexTokens(h: TokenHash, tm: TokenMap, a: Address, tokens: set<Token>, ghost pairs: set<(U64, Address)>)
      returns (tm': TokenMap)
    requires Indexes(tm, pairs)
    ensures Indexes(tm', pairs + set t | t in tokens :: (h(t), a))
  {
    hide Indexes;
    tm' := tm;
    var todo := tokens;
    ghost var done: set<Token> := {};
    assert pairs + (set t | t in done :: (h(t), a)) == pairs;
    while todo != {}
      invariant done + todo == tokens && done !! todo
      invariant Indexes(tm', pairs + set t | t in done :: (h(t), a))
    {
      var t :| t in todo;
      IndexAdd(tm', pairs + set t | t in done :: (h(t), a), h(t), a);
      tm' := Add(tm', h(t), a);
      todo := todo - {t};
      assert pairs + (set u | u in done + {t} :: (h(u), a)) == pairs + (set u | u in done :: (h(u), a)) + {(h(t), a)};
      done := done + {t};
    }
    assert done == tokens;
  }

  lemma PairsGrow(h: TokenHash, eps: EndpointMap, todo: set<Address>, a: Address)
    requires a in todo && todo <= eps.Keys
    ensures Pairs(h, eps - (todo - {a})) == Pairs(h, eps - todo) + set t | t in eps[a].tokens :: (h(t), a)
  {
    assert (eps - (todo - {a})) - {a} == eps - todo;
    PairsSplit(h, eps - (todo - {a}), a);
  }

  /** build_token_map: the index is built pair by pair, whatever the iteration order. */
  method BuildTokenMap(h: TokenHash, eps: EndpointMap) returns (tm: TokenMap)
    ensures tm == TokenMapOf(h, eps)
  {
    hide Indexes, Pairs;
    tm := map[];
    var todo := eps.Keys;
    NoPairs(h, eps);
    while todo != {}
      invariant todo <= eps.Keys
      invariant Indexes(tm, Pairs(h, eps - todo))
    {
      var a :| a in todo;
      tm := IndexTokens(h, tm, a, eps[a].tokens, Pairs(h, eps - todo));
      PairsGrow(h, eps, todo, a);
      todo := todo - {a};
    }
    assert eps - {} == eps;
    IndexUnique(tm, Index(Pairs(h, eps)), Pairs(h, eps));
  }

  lemma NoPairs(h: TokenHash, eps: EndpointMap)
    ensures Indexes(map[], Pairs(h, eps - eps.Keys))
  {
    assert Pairs(h, eps - eps.Keys) == {};
  }

  /** EndpointSet::update: bump the version and rebuild the index. */
  method Update(h: Hashing, s: EndpointSet) returns (s': EndpointSet)
    ensures s' == Updated(h, s, s.endpoints)
  {
    var tm := BuildTokenMap(h.token, s.endpoints);
    s' := s.(tokenMap := tm, hash := h.content(View(s.endpoints)));
  }

  method New(h: Hashing, eps: EndpointMap) returns (s: EndpointSet)
    ensures s == Fresh(h, eps) && s.endpoints == eps && s.hash == h.content(View(eps))
  {
    s := Update(h, EndpointSet(eps, map[], 0, 0, None));
  }

  /** The caller vouches for the hash. */
  method WithVersion(h: Hashing, eps: EndpointMap, hash: U64) returns (s: EndpointSet)
    ensures s == Fresh(h, eps).(hash := hash) && s.endpoints == eps && s.hash == hash
  {
    var tm := BuildTokenMap(h.token, eps);
    s := EndpointSet(eps, tm, hash, 0, None);
  }

  // ---- Replacing a set, and the delta that reports it ----

  datatype Delta = Delta(removed: seq<Address>, upserted: seq<(Address, set<Token>)>)

  /** `d` reports the change from `old` to `new`: what left, and what came or changed tokens. */
  ghost predicate Reports(d: Delta, old_: TokenView, new_: TokenView) {
    && NoDuplicates(d.removed) && NoDuplicates(d.upserted)
    && (forall a :: a in d.removed <==> a in old_ && a !in new_)
    && (forall x :: x in d.upserted <==> Get(new_, x.0) == Some(x.1) && Get(old_, x.0) != Some(x.1))
  }

  function RemoveAll(v: TokenView, removed: seq<Address>): TokenView {
    v - set a | a in removed
  }

  function UpsertAll(v: TokenView, upserted: seq<(Address, set<Token>)>): TokenView {
    if upserted == [] then v
    else UpsertAll(v, upserted[..|upserted| - 1])[upserted[|upserted| - 1].0 := upserted[|upserted| - 1].1]
  }

  /** What a consumer of the delta does: removals first, then upserts in order. */
  function Replay(v: TokenView, d: Delta): TokenView {
    UpsertAll(RemoveAll(v, d.removed), d.upserted)
  }

  lemma {:induction false} UpsertAllAt(v: TokenView, up: seq<(Address, set<Token>)>, a: Address)
    ensures (forall x :: x in up ==> x.0 != a) ==> Get(UpsertAll(v, up), a) == Get(v, a)
    ensures (exists x :: x in up && x.0 == a) ==>
            exists x :: x in up && x.0 == a && Get(UpsertAll(v, up), a) == Some(x.1)
  {
    if up != [] {
      var n := |up| - 1;
      var pre := up[..n];
      assert up == pre + [up[n]];
      UpsertAllAt(v, pre, a);
      if up[n].0 == a {
        assert up[n] in up && Get(UpsertAll(v, up), a) == Some(up[n].1);
      } else {
        assert Get(UpsertAll(v, up), a) == Get(UpsertAll(v, pre), a);
        if x :| x in up && x.0 == a {
          assert x in pre;
          var y :| y in pre && y.0 == a && Get(UpsertAll(v, pre), a) == Some(y.1);
          assert y in up;
        }
      }
    }
  }

  /** Replaying a reported delta on the old tokens gives exactly the new ones. */
  lemma ReplayReaches(d: Delta, old_: TokenView, new_: TokenView)
    requires Reports(d, old_, new_)
    ensures Replay(old_, d) == new_
  {
    var base := RemoveAll(old_, d.removed);
    forall a ensures Get(Replay(old_, d), a) == Get(new_, a) {
      UpsertAllAt(base, d.upserted, a);
      if x :| x in d.upserted && x.0 == a {
      } else if a in new_ {
        assert (a, new_[a]) !in d.upserted;
      }
    }
    SameLookups(Replay(old_, d), new_);
  }

  lemma SameLookups<K(!new), V>(m: map<K, V>, n: map<K, V>)
    requires forall k :: Get(m, k) == Get(n, k)
    ensures m == n
  {
    forall k | k in m ensures k in n && n[k] == m[k] { assert Get(m, k) == Get(n, k); }
    forall k | k in n ensures k in m { assert Get(m, k) == Get(n, k); }
  }

  /** A reported delta is minimal and its lists do not overlap: any delta with the same effect contains it. */
  lemma DeltaMinimal(d: Delta, e: Delta, old_: TokenView, new_: TokenView)
    requires Reports(d, old_, new_) && Replay(old_, e) == new_
    ensures forall a :: a in d.removed ==> a in e.removed
    ensures forall x :: x in d.upserted ==> x in e.upserted
    ensures forall a, ts :: a in d.removed ==> (a, ts) !in d.upserted
  {
    var base := RemoveAll(old_, e.removed);
    forall a | a in d.removed ensures a in e.removed {
      UpsertAllAt(base, e.upserted, a);
      assert Get(new_, a) == None;
    }
    forall x | x in d.upserted ensures x in e.upserted {
      UpsertAllAt(base, e.upserted, x.0);
      assert Get(base, x.0) != Some(x.1) && Get(new_, x.0) == Some(x.1);
      var z :| z in e.upserted && z.0 == x.0 && Get(new_, x.0) == Some(z.1);
      assert z == (x.0, x.1) == x;
    }
  }

  function Before(contents: seq<TokenView>, i: nat): TokenView
    requires i <= |contents|
  {
    if i == 0 then map[] else contents[i - 1]
  }

  /** Deltas telescope: replaying, from nothing, the deltas of any run of contents gives the last content. */
  lemma {:induction false} DeltasTelescope(contents: seq<TokenView>, deltas: seq<Delta>)
    requires |contents| == |deltas|
    requires forall i :: 0 <= i < |deltas| ==> Reports(deltas[i], Before(contents, i), contents[i])
    ensures ReplaySeq(deltas) == Before(contents, |contents|)
  {
    hide Reports, Replay;
    if deltas != [] {
      var n := |deltas| - 1;
      forall i | 0 <= i < n ensures Reports(deltas[..n][i], Before(contents[..n], i), contents[..n][i]) {
        assert Reports(deltas[i], Before(contents, i), contents[i]);
      }
      DeltasTelescope(contents[..n], deltas[..n]);
      ReplayReaches(deltas[n], Before(contents, n), contents[n]);
    }
  }

  function ReplaySeq(deltas: seq<Delta>): TokenView {
    if deltas == [] then map[] else Replay(ReplaySeq(deltas[..|deltas| - 1]), deltas[|deltas| - 1])
  }

  method CollectUpserted(old_: EndpointMap, new_: EndpointMap) returns (up: seq<(Address, set<Token>)>)
    ensures NoDuplicates(up)
    ensures forall x :: x in up <==> Get(View(new_), x.0) == Some(x.1) && Get(View(old_), x.0) != Some(x.1)
  {
    up := [];
    var todo := new_.Keys;
    while todo != {}
      invariant todo <= new_.Keys
      invariant NoDuplicates(up)
      invariant forall x :: x in up <==>
                  x.0 !in todo && Get(View(new_), x.0) == Some(x.1) && Get(View(old_), x.0) != Some(x.1)
    {
      var a :| a in todo;
      if a in old_ {
        if new_[a].tokens != old_[a].tokens {
          up := up + [(a, new_[a].tokens)];
        }
      } else {
        up := up + [(a, new_[a].tokens)];
      }
      todo := todo - {a};
    }
  }

  method CollectRemoved(old_: EndpointMap, new_: EndpointMap) returns (removed: seq<Address>)
    ensures NoDuplicates(removed)
    ensures forall a :: a in removed <==> a in old_ && a !in new_
  {
    removed := [];
    var todo := old_.Keys;
    while todo != {}
      invariant todo <= old_.Keys
      invariant NoDuplicates(removed)
      invariant forall a :: a in removed <==> a !in todo && a in old_ && a !in new_
    {
      var a :| a in todo;
      if a !in new_ {
        removed := removed + [a];
      }
      todo := todo - {a};
    }
  }

  /** What token_map_diff asks for: every key of either map, with its new value if it has one. */
  function Diff(old_: TokenMap, new_: TokenMap): map<U64, Option<set<Address>>> {
    map k | k in old_.Keys + new_.Keys :: Get(new_, k)
  }

  method TokenMapDiff(old_: TokenMap, new_: TokenMap) returns (hm: map<U64, Option<set<Address>>>)
    ensures hm == Diff(old_, new_)
  {
    hm := map[];
    var todo := old_.Keys;
    while todo != {}
      invariant todo <= old_.Keys && hm.Keys <= old_.Keys - todo
      invariant forall k :: k in hm ==> hm[k] == Get(new_, k)
      invariant forall k :: k in old_ && k !in todo && k !in new_ ==> k in hm
    {
      var k :| k in todo;
      if k in new_ {
        if old_[k] != new_[k] {
          hm := hm[k := Some(new_[k])];
        }
      } else {
        hm := hm[k := None];
      }
      todo := todo - {k};
    }
    todo := new_.Keys;
    while todo != {}
      invariant todo <= new_.Keys && hm.Keys <= old_.Keys + new_.Keys
      invariant forall k :: k in hm ==> hm[k] == Get(new_, k)
      invariant forall k :: k in old_ && k !in new_ ==> k in hm
      invariant forall k :: k in new_ && k !in todo ==> k in hm
    {
      var k :| k in todo;
      if k !in hm {
        hm := hm[k := Some(new_[k])];
      }
      todo := todo - {k};
    }
    assert hm.Keys == old_.Keys + new_.Keys;
  }

  /** What replace makes of a set: the replacement's content, and its version unless that is zero. */
  ghost function Replaced(h: Hashing, s: EndpointSet, replacement: EndpointSet): EndpointSet {
    var u := Updated(h, s, replacement.endpoints);
    if replacement.hash == 0 then u else u.(hash := replacement.hash)
  }

  method Replace(h: Hashing, s: EndpointSet, replacement: EndpointSet)
      returns (s': EndpointSet, oldLen: nat, diff: map<U64, Option<set<Address>>>, d: Delta)
    ensures s' == Replaced(h, s, replacement) && s'.endpoints == replacement.endpoints
    ensures s'.hash == if replacement.hash == 0 then h.content(View(s'.endpoints)) else replacement.hash
    ensures oldLen == |s.endpoints|
    ensures diff == Diff(s.tokenMap, s'.tokenMap)
    ensures Reports(d, View(s.endpoints), View(replacement.endpoints))
  {
    hide Diff, TokenMapOf, View;
    var up := CollectUpserted(s.endpoints, replacement.endpoints);
    var removed := CollectRemoved(s.endpoints, replacement.endpoints);
    d := Delta(removed, up);
    oldLen := |s.endpoints|;
    s' := s.(endpoints := replacement.endpoints);
    if replacement.hash == 0 {
      s' := Update(h, s');
    } else {
      var tm := BuildTokenMap(h.token, s'.endpoints);
      s' := s'.(hash := replacement.hash, tokenMap := tm);
    }
    diff := TokenMapDiff(s.tokenMap, s'.tokenMap);
  }

  /** The producer's entries make way for the replacement; everyone else's stay. */
  function PartiallyReplaced(eps: EndpointMap, replacement: EndpointMap, owned: Metadata -> bool): EndpointMap {
    (map a | a in eps && !owned(eps[a]) :: eps[a]) + replacement
  }

  /** Address by address: all of the replacement, and of the rest what is not the producer's. */
  ghost predicate ResetTo(replacement: EndpointMap, owned: Metadata -> bool, was: EndpointMap, now: EndpointMap) {
    forall a :: Get(now, a) ==
      if a in replacement then Some(replacement[a])
      else if a in was && !owned(was[a]) then Some(was[a])
      else None
  }

  lemma PartialResets(eps: EndpointMap, replacement: EndpointMap, owned: Metadata -> bool)
    ensures ResetTo(replacement, owned, eps, PartiallyReplaced(eps, replacement, owned))
  {}

  lemma ReplaceNothing(eps: EndpointMap, owned: Metadata -> bool)
    ensures PartiallyReplaced(map[], eps, owned) == eps
  {}

  method InsertAll(into: EndpointMap, extra: EndpointMap) returns (eps: EndpointMap)
    ensures eps == into + extra
  {
    eps := into;
    var todo := extra.Keys;
    while todo != {}
      invariant todo <= extra.Keys
      invariant eps == into + (extra - todo)
    {
      var a :| a in todo;
      eps := eps[a := extra[a]];
      todo := todo - {a};
    }
    assert extra - {} == extra;
  }

  method PartialReplace(h: Hashing, s: EndpointSet, replacement: EndpointSet, owned: Metadata -> bool)
      returns (s': EndpointSet, newLen: nat, oldLen: nat, diff: map<U64, Option<set<Address>>>)
    ensures s' == Updated(h, s, PartiallyReplaced(s.endpoints, replacement.endpoints, owned))
    ensures ResetTo(replacement.endpoints, owned, s.endpoints, s'.endpoints)
    ensures newLen == |s'.endpoints| && oldLen == |s.endpoints|
    ensures diff == Diff(s.tokenMap, s'.tokenMap)
  {
    hide Diff, TokenMapOf, View, ResetTo;
    PartialResets(s.endpoints, replacement.endpoints, owned);
    oldLen := |s.endpoints|;
    var kept: EndpointMap := map a | a in s.endpoints && !owned(s.endpoints[a]) :: s.endpoints[a];
    var eps := InsertAll(kept, replacement.endpoints);
    newLen := |eps|;
    s' := Update(h, s.(endpoints := eps));
    diff := TokenMapDiff(s.tokenMap, s'.tokenMap);
  }

  // ---- The memoized encoding ----

  /** encoded_cluster: the memo answers when version and locality match, else it is refilled. */
  method EncodedCluster(h: Hashing, s: EndpointSet, locality: Option<Locality>)
      returns (r: Resource, s': EndpointSet)
    ensures (r, s') == EncodedSpec(s, locality)
  {
    if s.cache.Some? && s.cache.value.version == s.hash && s.cache.value.resource.locality == locality {
      return s.cache.value.resource, s;
    }
    r := Resource(locality, s.endpoints);
    s' := s.(cache := Some(Encoded(s.hash, r)));
  }

  function EncodedSpec(s: EndpointSet, locality: Option<Locality>): (Resource, EndpointSet) {
    if s.cache.Some? && s.cache.value.version == s.hash && s.cache.value.resource.locality == locality
    then (s.cache.value.resource, s)
    else
      var r := Resource(locality, s.endpoints);
      (r, s.(cache := Some(Encoded(s.hash, r))))
  }

  /** The edits a set goes through between encodings, and encodings themselves. */
  datatype SetOp =
    | Edit(eps: EndpointMap)                        // write guard or partial_replace: rehashed
    | Swap(replacement: EndpointSet)                // replace
    | Encode(locality: Option<Locality>)

  ghost function Perform(h: Hashing, s: EndpointSet, op: SetOp): EndpointSet {
    match op
    case Edit(eps) => Updated(h, s, eps)
    case Swap(r) => Replaced(h, s, r)
    case Encode(l) => EncodedSpec(s, l).1
  }

  ghost function PerformAll(h: Hashing, s: EndpointSet, ops: seq<SetOp>): EndpointSet {
    if ops == [] then s else Perform(h, PerformAll(h, s, ops[..|ops| - 1]), ops[|ops| - 1])
  }

  /** "This hash must be calculated with update": a supplied version is zero or a true content hash. */
  ghost predicate Vouched(h: Hashing, op: SetOp) {
    op.Swap? && op.replacement.hash != 0 ==> HashTrue(h, op.replacement)
  }

  ghost predicate Truthful(h: Hashing, s: EndpointSet) {
    HashTrue(h, s) && CacheTrue(h, s) && IndexExact(h, s)
  }

  lemma PerformKeepsTruth(h: Hashing, s: EndpointSet, op: SetOp)
    requires Truthful(h, s) && Vouched(h, op)
    ensures Truthful(h, Perform(h, s, op))
  {
    hide View, TokenMapOf;
  }

  /** In every run of edits, replacements and encodings, version, index and memo stay true. */
  lemma {:induction false} RunKeepsTruth(h: Hashing, s: EndpointSet, ops: seq<SetOp>)
    requires Truthful(h, s)
    requires forall op :: op in ops ==> Vouched(h, op)
    ensures Truthful(h, PerformAll(h, s, ops))
  {
    hide Truthful, Perform, Vouched;
    if ops != [] {
      var n := |ops| - 1;
      assert forall op :: op in ops[..n] ==> op in ops;
      RunKeepsTruth(h, s, ops[..n]);
      assert ops[n] in ops;
      PerformKeepsTruth(h, PerformAll(h, s, ops[..n]), ops[n]);
    }
  }

  /** The contents a set goes through. */
  ghost function Visited(h: Hashing, eps: EndpointMap, ops: seq<SetOp>): set<TokenView> {
    set i | 0 <= i <= |ops| :: View(PerformAll(h, Fresh(h, eps), ops[..i]).endpoints)
  }

  lemma VisitedLast(h: Hashing, eps: EndpointMap, ops: seq<SetOp>, n: nat)
    requires |ops| == n + 1
    ensures Visited(h, eps, ops) == Visited(h, eps, ops[..n]) + {View(PerformAll(h, Fresh(h, eps), ops).endpoints)}
  {
    hide PerformAll, View, Fresh;
    var now := View(PerformAll(h, Fresh(h, eps), ops).endpoints);
    assert ops[..n + 1] == ops;
    forall v | v in Visited(h, eps, ops) ensures v in Visited(h, eps, ops[..n]) || v == now {
      var i :| 0 <= i <= |ops| && v == View(PerformAll(h, Fresh(h, eps), ops[..i]).endpoints);
      if i <= n { assert ops[..n][..i] == ops[..i]; }
    }
    forall v | v in Visited(h, eps, ops[..n]) ensures v in Visited(h, eps, ops) {
      var i :| 0 <= i <= n && v == View(PerformAll(h, Fresh(h, eps), ops[..n][..i]).endpoints);
      assert ops[..n][..i] == ops[..i];
    }
  }

  /** The memo only ever shows a content the set went through. */
  lemma {:induction false} MemoWasVisited(h: Hashing, eps: EndpointMap, ops: seq<SetOp>)
    ensures View(PerformAll(h, Fresh(h, eps), ops).endpoints) in Visited(h, eps, ops)
    ensures var s := PerformAll(h, Fresh(h, eps), ops);
            s.cache.Some? ==> View(s.cache.value.resource.endpoints) in Visited(h, eps, ops)
  {
    hide View, TokenMapOf, Visited;
    if ops == [] {
      FreshVisited(h, eps);
    } else {
      var n := |ops| - 1;
      MemoWasVisited(h, eps, ops[..n]);
      VisitedLast(h, eps, ops, n);
    }
  }

  lemma FreshVisited(h: Hashing, eps: EndpointMap)
    ensures View(Fresh(h, eps).endpoints) in Visited(h, eps, [])
  {
    assert PerformAll(h, Fresh(h, eps), [][..0]) == Fresh(h, eps);
  }

  /** What encoded_cluster returns after a run is for the locality and shows the current addresses and tokens. */
  ghost predicate EncodesCurrent(h: Hashing, eps: EndpointMap, ops: seq<SetOp>, locality: Option<Locality>) {
    var s := PerformAll(h, Fresh(h, eps), ops);
    var r := EncodedSpec(s, locality).0;
    r.locality == locality && View(r.endpoints) == View(s.endpoints)
  }

  /** After any run, provided the content hash tells the contents of the run apart. */
  lemma MemoizedEncodingAgrees(h: Hashing, eps: EndpointMap, ops: seq<SetOp>, locality: Option<Locality>)
    requires forall op :: op in ops ==> Vouched(h, op)
    requires InjectiveContent(h, Visited(h, eps, ops))
    ensures EncodesCurrent(h, eps, ops, locality)
  {
    hide View, TokenMapOf, Visited;
    RunKeepsTruth(h, Fresh(h, eps), ops);
    MemoWasVisited(h, eps, ops);
  }

  /** Every run through these contents is encoded currently. */
  ghost predicate AlwaysCurrent(h: Hashing, views: set<TokenView>) {
    forall eps, ops, locality :: (forall op :: op in ops ==> Vouched(h, op)) && Visited(h, eps, ops) <= views ==>
      EncodesCurrent(h, eps, ops, locality)
  }

  /** A memo is safe for a set of contents exactly when the content hash tells them apart. */
  lemma MemoIsSafe(h: Hashing, views: set<TokenView>)
    ensures AlwaysCurrent(h, views) <==> InjectiveContent(h, views)
  {
    hide Visited, EncodesCurrent, OfView;
    if InjectiveContent(h, views) {
      forall eps, ops: seq<SetOp>, locality | (forall op :: op in ops ==> Vouched(h, op))
        && Visited(h, eps, ops) <= views
        ensures EncodesCurrent(h, eps, ops, locality) {
        MemoizedEncodingAgrees(h, eps, ops, locality);
      }
    } else {
      var v, w :| v in views && w in views && h.content(v) == h.content(w) && v != w;
      var ops := [Encode(None), Edit(OfView(w))];
      CollisionServesStale(h, v, w);
      assert forall op :: op in ops ==> Vouched(h, op);
    }
  }

  function OfView(v: TokenView): EndpointMap {
    map a | a in v :: Metadata(v[a], map[])
  }

  /** If two contents collide, the first is still served after a change to the second. */
  lemma CollisionServesStale(h: Hashing, v: TokenView, w: TokenView)
    requires h.content(v) == h.content(w) && v != w
    ensures var ops := [Encode(None), Edit(OfView(w))];
            Visited(h, OfView(v), ops) == {v, w} && !EncodesCurrent(h, OfView(v), ops, None)
  {
    hide TokenMapOf;
    var ops := [Encode(None), Edit(OfView(w))];
    var s0 := Fresh(h, OfView(v));
    assert View(OfView(v)) == v && View(OfView(w)) == w;
    assert ops[..1] == [Encode(None)] && ops[..1][..0] == [];
    assert PerformAll(h, s0, ops[..1]) == EncodedSpec(s0, None).1;
    assert PerformAll(h, s0, ops).endpoints == OfView(w);
    VisitedLast(h, OfView(v), ops, 1);
    VisitedLast(h, OfView(v), ops[..1], 0);
    FreshVisited(h, OfView(v));
    assert Visited(h, OfView(v), []) == {v};
  }

  ghost predicate InjectiveContent(h: Hashing, views: set<TokenView>) {
    forall v, w :: v in views && w in views && h.content(v) == h.content(w) ==> v == w
  }
}
