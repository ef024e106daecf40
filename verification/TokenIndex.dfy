/**
 * The cluster-wide token index (src/net/cluster.rs): one map from token hash to addresses over all
 * localities, patched on every change of a locality from that locality's old and new token maps.
 */
module TokenIndex {
  import opened Base
  import opened MultiMaps
  import opened Endpoints
  import opened EndpointSets
  import opened Localities

  type Loc = Option<Locality>

  type Contents = map<Loc, EndpointMap>

  /** Every (token hash, address) of every locality. */
  ghost function GlobalPairs(h: TokenHash, c: Contents): set<(U64, Address)> {
    set l, x | l in c && x in Pairs(h, c[l]) :: x
  }

  ghost function KeysOf(h: TokenHash, eps: EndpointMap): set<U64> {
    TokenMapOf(h, eps).Keys
  }

  /** What the patch makes of the index when a locality's token map goes from `was` to `now`. */
  function Patched(index: TokenMap, was: TokenMap, now: TokenMap): TokenMap {
    (index - (was.Keys - now.Keys)) + now
  }

  /** Applies a token_map_diff to the index. */
  method ApplyDiff(index: TokenMap, was: TokenMap, now: TokenMap, diff: map<U64, Option<set<Address>>>)
      returns (index': TokenMap)
    requires diff == Diff(was, now)
    ensures index' == Patched(index, was, now)
  {
    index' := index;
    var todo := diff.Keys;
    while todo != {}
      invariant todo <= diff.Keys
      invariant forall k :: Get(index', k) == if k in diff && k !in todo then Get(now, k) else Get(index, k)
    {
      var k :| k in todo;
      match diff[k] {
        case Some(addrs) => index' := index'[k := addrs];
        case None => index' := index' - {k};
      }
      todo := todo - {k};
    }
    SameLookups(index', Patched(index, was, now));
  }

  // ---- When the patched index is the exact one ----

  lemma KeyIn(h: TokenHash, eps: EndpointMap, k: U64)
    ensures k in KeysOf(h, eps) <==> exists a :: (k, a) in Pairs(h, eps)
    ensures forall a :: (k, a) in Pairs(h, eps) <==> a in GetOr(TokenMapOf(h, eps), k, {})
  {
    hide Pairs, Index;
    var tm := TokenMapOf(h, eps);
    assert Indexes(tm, Pairs(h, eps));
    if k in tm {
      var a :| a in tm[k];
      assert (k, a) in Pairs(h, eps);
    }
  }

  /**
   * The condition, on the other localities, under which setting locality `l` to `eps` keeps the
   * index exact: a hash the new set holds is elsewhere held only by addresses the new set gives
   * it too, and a hash the set gives up is held nowhere else.
   */
  ghost predicate PutSafe(h: TokenHash, c: Contents, l: Loc, eps: EndpointMap) {
    forall k, a :: (k, a) in GlobalPairs(h, c - {l}) ==>
      && (k in KeysOf(h, eps) ==> (k, a) in Pairs(h, eps))
      && (k in KeysOf(h, GetOr(c, l, map[])) ==> k in KeysOf(h, eps))
  }

  /** The pairs the patched index holds. */
  ghost function PatchedPairs(h: TokenHash, c: Contents, l: Loc, eps: EndpointMap): set<(U64, Address)> {
    var was, now := KeysOf(h, GetOr(c, l, map[])), KeysOf(h, eps);
    (set x | x in GlobalPairs(h, c) && x.0 !in was && x.0 !in now) + Pairs(h, eps)
  }

  lemma PatchedIndexes(h: TokenHash, c: Contents, l: Loc, eps: EndpointMap, index: TokenMap)
    requires Indexes(index, GlobalPairs(h, c))
    ensures Indexes(Patched(index, TokenMapOf(h, GetOr(c, l, map[])), TokenMapOf(h, eps)), PatchedPairs(h, c, l, eps))
  {
    hide GlobalPairs, Pairs;
    var was, now := TokenMapOf(h, GetOr(c, l, map[])), TokenMapOf(h, eps);
    var index' := Patched(index, was, now);
    var pairs := PatchedPairs(h, c, l, eps);
    forall k, a ensures (k, a) in pairs <==> k in index' && a in index'[k] {
      PatchedAt(h, c, l, eps, index, k, a);
    }
    forall k | k in index' ensures index'[k] != {} {
      if k in now { assert now[k] != {}; }
    }
  }

  lemma PatchedAt(h: TokenHash, c: Contents, l: Loc, eps: EndpointMap, index: TokenMap, k: U64, a: Address)
    requires Indexes(index, GlobalPairs(h, c))
    ensures var index' := Patched(index, TokenMapOf(h, GetOr(c, l, map[])), TokenMapOf(h, eps));
            (k, a) in PatchedPairs(h, c, l, eps) <==> k in index' && a in index'[k]
  {
    hide Pairs, GlobalPairs, TokenMapOf;
    var old_ := GetOr(c, l, map[]);
    KeyIn(h, eps, k);
    KeyIn(h, old_, k);
    if k in KeysOf(h, old_) && k !in KeysOf(h, eps) {
    } else if k in KeysOf(h, old_) {
    } else {
      assert (k, a) in GlobalPairs(h, c) <==> k in index && a in index[k];
    }
  }

  lemma GlobalSplit(h: TokenHash, c: Contents, l: Loc)
    ensures GlobalPairs(h, c) == GlobalPairs(h, c - {l}) + Pairs(h, GetOr(c, l, map[]))
  {
    hide Pairs;
    NoPairsAtAll(h);
    forall x | x in GlobalPairs(h, c) ensures x in GlobalPairs(h, c - {l}) + Pairs(h, GetOr(c, l, map[])) {
      var m :| m in c && x in Pairs(h, c[m]);
      if m != l { assert m in c - {l} && x in Pairs(h, (c - {l})[m]); }
    }
    forall x | x in GlobalPairs(h, c - {l}) ensures x in GlobalPairs(h, c) {
      var m :| m in c - {l} && x in Pairs(h, (c - {l})[m]);
      assert m in c && x in Pairs(h, c[m]);
    }
  }

  lemma NoPairsAtAll(h: TokenHash)
    ensures Pairs(h, map[]) == {}
  {}

  /** Setting a locality keeps an exact index exact if and only if the change is safe. */
  lemma PutKeepsIndexExact(h: TokenHash, c: Contents, l: Loc, eps: EndpointMap, index: TokenMap)
    requires Indexes(index, GlobalPairs(h, c))
    ensures var index' := Patched(index, TokenMapOf(h, GetOr(c, l, map[])), TokenMapOf(h, eps));
            Indexes(index', GlobalPairs(h, c[l := eps])) <==> PutSafe(h, c, l, eps)
  {
    hide Indexes, Pairs, GlobalPairs, TokenMapOf, KeysOf;
    var old_ := GetOr(c, l, map[]);
    var index' := Patched(index, TokenMapOf(h, old_), TokenMapOf(h, eps));
    var got, want := PatchedPairs(h, c, l, eps), GlobalPairs(h, c[l := eps]);
    PatchedIndexes(h, c, l, eps, index);
    GlobalSplit(h, c, l);
    GlobalSplit(h, c[l := eps], l);
    assert c[l := eps] - {l} == c - {l};
    forall x ensures x in got <==> x in Pairs(h, eps)
                                   || (x in GlobalPairs(h, c - {l}) && x.0 !in KeysOf(h, old_)
                                     && x.0 !in KeysOf(h, eps)) {
      KeyIn(h, old_, x.0);
      assert x == (x.0, x.1);
    }
    if PutSafe(h, c, l, eps) {
      forall x ensures x in got <==> x in want {
        assert x == (x.0, x.1);
        KeyIn(h, eps, x.0);
      }
      assert got == want;
    } else {
      var k, a :| (k, a) in GlobalPairs(h, c - {l})
        && !((k in KeysOf(h, eps) ==> (k, a) in Pairs(h, eps)) && (k in KeysOf(h, old_) ==> k in KeysOf(h, eps)));
      KeyIn(h, eps, k);
      assert (k, a) in want && (k, a) !in got;
      if Indexes(index', want) {
        PairsUnique(index', got, want);
        assert false;
      }
    }
  }

  /**
   * Removing a locality does not touch the index, so it stays exact if and only if everything the
   * locality contributed is contributed by another one too.
   */
  lemma DropKeepsIndexExact(h: TokenHash, c: Contents, l: Loc, index: TokenMap)
    requires Indexes(index, GlobalPairs(h, c))
    ensures Indexes(index, GlobalPairs(h, c - {l})) <==> Pairs(h, GetOr(c, l, map[])) <= GlobalPairs(h, c - {l})
  {
    hide Indexes, Pairs, GlobalPairs;
    GlobalSplit(h, c, l);
    if Indexes(index, GlobalPairs(h, c - {l})) {
      PairsUnique(index, GlobalPairs(h, c), GlobalPairs(h, c - {l}));
    }
    if Pairs(h, GetOr(c, l, map[])) <= GlobalPairs(h, c - {l}) {
      assert GlobalPairs(h, c) == GlobalPairs(h, c - {l});
    }
  }

  // ---- Runs ----

  /** apply, insert and partial_replace are Puts; removal and relocation leave the index alone. */
  datatype Op = Put(at: Loc, eps: EndpointMap) | Drop(gone: Loc) | Relocate(to: Locality)

  datatype Indexed = Indexed(contents: Contents, index: TokenMap)

  function Relocated(c: Contents, to: Locality): Contents {
    if None in c then (c - {None})[Some(to) := c[None]] else c
  }

  ghost function Do(h: TokenHash, s: Indexed, op: Op): Indexed {
    match op
    case Put(l, eps) =>
      var was := TokenMapOf(h, GetOr(s.contents, l, map[]));
      Indexed(s.contents[l := eps], Patched(s.index, was, TokenMapOf(h, eps)))
    case Drop(l) => s.(contents := s.contents - {l})
    case Relocate(to) => s.(contents := Relocated(s.contents, to))
  }

  ghost function DoAll(h: TokenHash, ops: seq<Op>): Indexed {
    if ops == [] then Indexed(map[], map[]) else Do(h, DoAll(h, ops[..|ops| - 1]), ops[|ops| - 1])
  }

  lemma DoLast(h: TokenHash, ops: seq<Op>, op: Op)
    ensures DoAll(h, ops + [op]) == Do(h, DoAll(h, ops), op)
  {
    assert (ops + [op])[..|ops|] == ops;
  }

  /** No token hash is held by two localities at once. */
  ghost predicate Solo(h: TokenHash, c: Contents) {
    forall l, m, k :: l in c && m in c && k in KeysOf(h, c[l]) && k in KeysOf(h, c[m]) ==> l == m
  }

  ghost predicate AlwaysSolo(h: TokenHash, ops: seq<Op>) {
    forall i :: 0 <= i <= |ops| ==> Solo(h, DoAll(h, ops[..i]).contents)
  }

  lemma SoloIsSafe(h: TokenHash, c: Contents, l: Loc, eps: EndpointMap)
    requires Solo(h, c) && Solo(h, c[l := eps])
    ensures PutSafe(h, c, l, eps)
  {
    hide Pairs, KeysOf;
    var c' := c[l := eps];
    forall k, a | (k, a) in GlobalPairs(h, c - {l})
      ensures k !in KeysOf(h, eps) && k !in KeysOf(h, GetOr(c, l, map[])) {
      var m :| m in c - {l} && (k, a) in Pairs(h, (c - {l})[m]);
      KeyIn(h, c[m], k);
      assert c'[m] == c[m] && c'[l] == eps;
      if l !in c { KeyIn(h, map[], k); NoPairsAtAll(h); }
    }
  }

  /** Runs of apply, insert and partial_replace, never sharing a hash, keep the index exact. */
  lemma {:induction false} PutsKeepIndexExact(h: TokenHash, ops: seq<Op>)
    requires AlwaysSolo(h, ops) && forall op :: op in ops ==> op.Put?
    ensures Indexes(DoAll(h, ops).index, GlobalPairs(h, DoAll(h, ops).contents))
  {
    hide Indexes, GlobalPairs, Solo, PutSafe, TokenMapOf;
    if ops == [] {
      NothingIndexed(h);
    } else {
      var n := |ops| - 1;
      SoloPrefix(h, ops);
      PutsKeepIndexExact(h, ops[..n]);
      assert ops[n] in ops && ops[..n + 1] == ops;
      var s := DoAll(h, ops[..n]);
      SoloIsSafe(h, s.contents, ops[n].at, ops[n].eps);
      PutKeepsIndexExact(h, s.contents, ops[n].at, ops[n].eps, s.index);
    }
  }

  lemma NothingIndexed(h: TokenHash)
    ensures Indexes(map[], GlobalPairs(h, map[]))
  {}

  lemma SoloPrefix(h: TokenHash, ops: seq<Op>)
    requires AlwaysSolo(h, ops) && ops != []
    ensures AlwaysSolo(h, ops[..|ops| - 1])
    ensures Solo(h, DoAll(h, ops[..|ops| - 1]).contents) && Solo(h, DoAll(h, ops).contents)
  {
    hide Solo;
    var n := |ops| - 1;
    forall i | 0 <= i <= n ensures Solo(h, DoAll(h, ops[..n][..i]).contents) {
      assert ops[..n][..i] == ops[..i];
    }
    assert ops[..n + 1] == ops;
  }

  /** Every hash some live endpoint holds is indexed, with exactly its locality's addresses. */
  ghost predicate Covers(h: TokenHash, s: Indexed) {
    forall l, k :: l in s.contents && k in KeysOf(h, s.contents[l]) ==>
      Get(s.index, k) == Some(TokenMapOf(h, s.contents[l])[k])
  }

  lemma DoKeepsCover(h: TokenHash, s: Indexed, op: Op)
    requires Covers(h, s) && Solo(h, s.contents) && Solo(h, Do(h, s, op).contents)
    ensures Covers(h, Do(h, s, op))
  {
    hide TokenMapOf;
    var s' := Do(h, s, op);
    match op
    case Put(l, eps) =>
      forall m, k | m in s'.contents && k in KeysOf(h, s'.contents[m])
        ensures Get(s'.index, k) == Some(TokenMapOf(h, s'.contents[m])[k]) {
        if m != l {
          assert s'.contents[l] == eps && s'.contents[m] == s.contents[m];
          if l !in s.contents { KeyIn(h, map[], k); NoPairsAtAll(h); }
          assert k in KeysOf(h, s.contents[m]);
          assert Get(s.index, k) == Some(TokenMapOf(h, s.contents[m])[k]);
          assert s'.index == Patched(s.index, TokenMapOf(h, GetOr(s.contents, l, map[])), TokenMapOf(h, eps));
          assert k !in KeysOf(h, GetOr(s.contents, l, map[])) && k !in KeysOf(h, s'.contents[l]);
        } else {
          assert s'.contents[m] == eps && k in TokenMapOf(h, eps);
          assert s'.index == Patched(s.index, TokenMapOf(h, GetOr(s.contents, l, map[])), TokenMapOf(h, eps));
          assert Get(s'.index, k) == Some(TokenMapOf(h, eps)[k]);
        }
      }
    case Drop(l) =>
    case Relocate(to) =>
  }

  /** With removals and relocations too, no live endpoint's token is ever missing from the index. */
  lemma {:induction false} LiveTokensNeverMissing(h: TokenHash, ops: seq<Op>)
    requires AlwaysSolo(h, ops)
    ensures Covers(h, DoAll(h, ops))
  {
    hide Covers, Solo, Do;
    if ops == [] {
      NothingToCover(h);
    } else {
      var n := |ops| - 1;
      SoloPrefix(h, ops);
      LiveTokensNeverMissing(h, ops[..n]);
      DoKeepsCover(h, DoAll(h, ops[..n]), ops[n]);
    }
  }

  lemma NothingToCover(h: TokenHash)
    ensures Covers(h, Indexed(map[], map[]))
  {}

  // ---- Looking a token up ----

  /** The addresses that carry a token, in any locality. */
  ghost function Holders(c: Contents, t: Token): set<Address> {
    set l, a | l in c && a in c[l] && t in c[l][a].tokens :: a
  }

  ghost function TokensOf(c: Contents): set<Token> {
    set l, a, t | l in c && a in c[l] && t in c[l][a].tokens :: t
  }

  /** With an exact index and no hash collision, a lookup finds the token's holders and no one else. */
  lemma LookupIsExact(h: TokenHash, c: Contents, index: TokenMap, t: Token)
    requires Indexes(index, GlobalPairs(h, c)) && InjectiveOn(h, TokensOf(c) + {t})
    ensures GetOr(index, h(t), {}) == Holders(c, t)
  {
    forall a ensures a in GetOr(index, h(t), {}) <==> a in Holders(c, t) {
      assert a in GetOr(index, h(t), {}) <==> (h(t), a) in GlobalPairs(h, c);
      HolderPair(h, c, t, a);
    }
  }

  lemma HolderPair(h: TokenHash, c: Contents, t: Token, a: Address)
    requires InjectiveOn(h, TokensOf(c) + {t})
    ensures (h(t), a) in GlobalPairs(h, c) <==> a in Holders(c, t)
  {
    if (h(t), a) in GlobalPairs(h, c) {
      var l :| l in c && (h(t), a) in Pairs(h, c[l]);
      PairIn(h, c[l], h(t), a);
      var u :| u in c[l][a].tokens && h(u) == h(t);
      assert u in TokensOf(c);
    }
    if a in Holders(c, t) {
      var l :| l in c && a in c[l] && t in c[l][a].tokens;
      assert (h(t), a) in Pairs(h, c[l]);
    }
  }

  /**
   * After any run in which no hash is held by two localities, a lookup misses no holder of the
   * token; without removals and relocations, and without collisions, it finds no one else.
   */
  lemma RunLookup(h: TokenHash, ops: seq<Op>, t: Token)
    requires AlwaysSolo(h, ops)
    ensures var s := DoAll(h, ops);
            && Holders(s.contents, t) <= GetOr(s.index, h(t), {})
            && ((forall op :: op in ops ==> op.Put?) && InjectiveOn(h, TokensOf(s.contents) + {t}) ==>
                  GetOr(s.index, h(t), {}) == Holders(s.contents, t))
  {
    hide DoAll, AlwaysSolo, Indexes, GlobalPairs, TokensOf, InjectiveOn, TokenMapOf;
    var s := DoAll(h, ops);
    LiveTokensNeverMissing(h, ops);
    forall a | a in Holders(s.contents, t) ensures a in GetOr(s.index, h(t), {}) {
      var l :| l in s.contents && a in s.contents[l] && t in s.contents[l][a].tokens;
      KeyIn(h, s.contents[l], h(t));
      assert (h(t), a) in Pairs(h, s.contents[l]);
      assert Get(s.index, h(t)) == Some(TokenMapOf(h, s.contents[l])[h(t)]);
    }
    if (forall op :: op in ops ==> op.Put?) && InjectiveOn(h, TokensOf(s.contents) + {t}) {
      PutsKeepIndexExact(h, ops);
      LookupIsExact(h, s.contents, s.index, t);
    }
  }

  /** A removed locality's token is still looked up. */
  lemma DropLeavesToken(h: TokenHash, l: Loc, a: Address, t: Token)
    ensures var s := DoAll(h, [Put(l, map[a := Metadata({t}, map[])]), Drop(l)]);
            s.contents == map[] && a in GetOr(s.index, h(t), {})
  {
    var eps: EndpointMap := map[a := Metadata({t}, map[])];
    var put := Put(l, eps);
    assert [] + [put] == [put] && [put] + [Drop(l)] == [put, Drop(l)];
    DoLast(h, [], put);
    DoLast(h, [put], Drop(l));
    var s1 := DoAll(h, [put]);
    assert s1.contents == map[l := eps] && s1.contents - {l} == map[];
    assert t in eps[a].tokens && (h(t), a) in Pairs(h, eps);
    KeyIn(h, eps, h(t));
  }
}
