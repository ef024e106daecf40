/**
 * Servers (src/net/servers.rs): server state by endpoint, with a reverse index from token hash to
 * an unordered list of endpoints, from which entries are taken with swap_remove.
 */
module Servers {
  import opened Base
  import opened Endpoints
  import opened EndpointSets

  datatype ServerData = ServerData(icao: string, tokens: set<Token>)

  type Reverse = map<U64, seq<Address>>

  /** Every list is non-empty and without duplicates, and the lists hold exactly `pairs`. */
  ghost predicate Lists(tm: Reverse, pairs: set<(U64, Address)>) {
    && (forall k :: k in tm ==> tm[k] != [] && NoDuplicates(tm[k]))
    && (forall k, a {:trigger (k, a) in pairs} {:trigger a in tm[k]} :: (k, a) in pairs <==> k in tm && a in tm[k])
  }

  function EndpointsWith(servers: map<Address, ServerData>): EndpointMap {
    map a | a in servers :: Metadata(servers[a].tokens, map[])
  }

  /** Exactly the (hash, endpoint) pairs the servers hold. */
  ghost predicate Exact(h: TokenHash, tm: Reverse, servers: map<Address, ServerData>) {
    Lists(tm, Pairs(h, EndpointsWith(servers)))
  }

  lemma AppendToList(tm: Reverse, pairs: set<(U64, Address)>, k: U64, a: Address)
    requires Lists(tm, pairs) && (k, a) !in pairs
    ensures Lists(tm[k := GetOr(tm, k, []) + [a]], pairs + {(k, a)})
  {
    NoDuplicatesAppend(GetOr(tm, k, []), a);
    var tm' := tm[k := GetOr(tm, k, []) + [a]];
    forall j, b ensures (j, b) in pairs + {(k, a)} <==> j in tm' && b in tm'[j] {
      assert (j, b) in pairs <==> j in tm && b in tm[j];
    }
  }

  lemma TakeFromList(tm: Reverse, pairs: set<(U64, Address)>, k: U64, a: Address, i: nat)
    requires Lists(tm, pairs) && k in tm && i < |tm[k]| && tm[k][i] == a
    ensures Lists(if |tm[k]| == 1 then tm - {k} else tm[k := SwapRemove(tm[k], i)], pairs - {(k, a)})
  {
    hide SwapRemove;
    SwapRemoveDrops(tm[k], i);
    var tm' := if |tm[k]| == 1 then tm - {k} else tm[k := SwapRemove(tm[k], i)];
    if |tm[k]| != 1 {
      var b := if i == 0 then tm[k][1] else tm[k][0];
      assert b in tm[k] && b != a;
      assert b in SwapRemove(tm[k], i);
    }
    forall j, b ensures (j, b) in pairs - {(k, a)} <==> j in tm' && b in tm'[j] {
      assert (j, b) in pairs <==> j in tm && b in tm[j];
    }
  }

  /** Every server's own tokens have distinct hashes. */
  ghost predicate EachInjective(h: TokenHash, servers: map<Address, ServerData>) {
    forall a :: a in servers ==> InjectiveOn(h, servers[a].tokens)
  }

  class Servers {
    const h: TokenHash
    var servers: map<Address, ServerData>
    var tokenMap: Reverse

    ghost predicate Valid()
      reads this
    {
      Exact(h, tokenMap, servers) && EachInjective(h, servers)
    }

    constructor (h: TokenHash)
      ensures Valid() && this.h == h && servers == map[]
    {
      this.h := h;
      servers, tokenMap := map[], map[];
      new;
      assert Pairs(h, EndpointsWith(map[])) == {};
    }

    method RemoveEndpointToken(hash: U64, ep: Address, ghost pairs: set<(U64, Address)>)
      requires Lists(tokenMap, pairs)
      modifies this`tokenMap
      ensures Lists(tokenMap, pairs - {(hash, ep)})
    {
      if hash !in tokenMap {
        assert pairs - {(hash, ep)} == pairs;
        return;
      }
      var eps := tokenMap[hash];
      var i := 0;
      while i < |eps| && eps[i] != ep
        invariant i <= |eps| && forall j :: 0 <= j < i ==> eps[j] != ep
      {
        i := i + 1;
      }
      if i == |eps| {
        assert pairs - {(hash, ep)} == pairs;
        return;
      }
      TakeFromList(tokenMap, pairs, hash, ep, i);
      if |eps| != 1 {
        tokenMap := tokenMap[hash := SwapRemove(eps, i)];
        return;
      }
      tokenMap := tokenMap - {hash};
    }

    /** `fires` is whether the debug assertion fails: the endpoint is listed already. The push is made in any case. */
    method InsertEndpointToken(hash: U64, ep: Address, ghost pairs: set<(U64, Address)>) returns (fires: bool)
      modifies this`tokenMap
      ensures fires <==> hash in old(tokenMap) && ep in old(tokenMap)[hash]
      ensures tokenMap == old(tokenMap)[hash := GetOr(old(tokenMap), hash, []) + [ep]]
      ensures old(Lists(tokenMap, pairs)) ==> (fires <==> (hash, ep) in pairs)
      ensures old(Lists(tokenMap, pairs)) && !fires ==> Lists(tokenMap, pairs + {(hash, ep)})
    {
      fires := hash in tokenMap && ep in tokenMap[hash];
      if Lists(tokenMap, pairs) {
        assert fires <==> (hash, ep) in pairs;
        if !fires {
          AppendToList(tokenMap, pairs, hash, ep);
        }
      }
      tokenMap := tokenMap[hash := GetOr(tokenMap, hash, []) + [ep]];
    }

    method RemoveTokens(ep: Address, tokens: set<Token>, ghost pairs: set<(U64, Address)>)
      requires Lists(tokenMap, pairs)
      modifies this`tokenMap
      ensures Lists(tokenMap, pairs - Entries(h, ep, tokens))
    {
      hide Lists;
      var todo := tokens;
      assert tokens - todo == {} && Entries(h, ep, {}) == {} && pairs - {} == pairs;
      while todo != {}
        invariant todo <= tokens
        invariant Lists(tokenMap, pairs - Entries(h, ep, tokens - todo))
      {
        var t :| t in todo;
        RemoveEndpointToken(h(t), ep, pairs - Entries(h, ep, tokens - todo));
        assert tokens - (todo - {t}) == (tokens - todo) + {t};
        assert Entries(h, ep, (tokens - todo) + {t}) == Entries(h, ep, tokens - todo) + {(h(t), ep)};
        assert pairs - Entries(h, ep, tokens - todo) - {(h(t), ep)} == pairs - Entries(h, ep, tokens - (todo - {t}));
        todo := todo - {t};
      }
      assert tokens - {} == tokens;
    }

    /** An insertion meets its own endpoint exactly when two of the tokens collide or one is listed already. */
    method InsertTokens(ep: Address, tokens: set<Token>, ghost pairs: set<(U64, Address)>) returns (fires: bool)
      requires Lists(tokenMap, pairs)
      modifies this`tokenMap
      ensures !fires <==> InjectiveOn(h, tokens) && pairs !! Entries(h, ep, tokens)
      ensures !fires ==> Lists(tokenMap, pairs + Entries(h, ep, tokens))
    {
      hide Lists;
      var todo := tokens;
      fires := false;
      assert tokens - todo == {} && Entries(h, ep, {}) == {} && pairs + {} == pairs;
      while todo != {}
        invariant todo <= tokens
        invariant !fires <==> InjectiveOn(h, tokens - todo) && pairs !! Entries(h, ep, tokens - todo)
        invariant !fires ==> Lists(tokenMap, pairs + Entries(h, ep, tokens - todo))
      {
        var t :| t in todo;
        ghost var done := tokens - todo;
        var now := InsertEndpointToken(h(t), ep, pairs + Entries(h, ep, done));
        OneMoreToken(h, ep, done, t, pairs);
        assert tokens - (todo - {t}) == done + {t};
        fires := fires || now;
        todo := todo - {t};
      }
      assert tokens - {} == tokens;
    }

    /** Inserts or updates a server. The debug assertion fires exactly when two of the new tokens collide. */
    method Upsert(ep: Address, icao: string, tokens: set<Token>) returns (fires: bool)
      requires Valid()
      modifies this
      ensures fires <==> !InjectiveOn(h, tokens)
      ensures !fires ==> Valid()
      ensures servers == old(servers)[ep := ServerData(icao, tokens)]
    {
      hide Lists, Pairs, Entries, InjectiveOn;
      ghost var pairs := Pairs(h, EndpointsWith(servers));
      var had := if ep in servers then servers[ep].tokens else {};
      UpsertPairs(h, servers, ep, icao, tokens);
      if ep in servers {
        RemoveTokens(ep, had - tokens, pairs);
        fires := InsertTokens(ep, tokens - had, pairs - Entries(h, ep, had - tokens));
        servers := servers[ep := ServerData(icao, tokens)];
      } else {
        fires := InsertTokens(ep, tokens, pairs);
        servers := servers[ep := ServerData(icao, tokens)];
      }
    }

    /** Removes a server and every trace of it in the index. */
    method Remove(ep: Address) returns (r: Option<ServerData>)
      requires Valid()
      modifies this
      ensures Valid()
      ensures servers == old(servers) - {ep} && r == Get(old(servers), ep)
    {
      hide Lists, Pairs, Entries;
      r := Get(servers, ep);
      if r.None? {
        assert servers - {ep} == servers;
        return;
      }
      ghost var pairs := Pairs(h, EndpointsWith(servers));
      RemovePairs(h, servers, ep);
      servers := servers - {ep};
      RemoveTokens(ep, r.value.tokens, pairs);
    }
  }

  lemma OneMoreToken(h: TokenHash, ep: Address, done: set<Token>, t: Token, pairs: set<(U64, Address)>)
    requires t !in done
    ensures pairs + Entries(h, ep, done) + {(h(t), ep)} == pairs + Entries(h, ep, done + {t})
    ensures InjectiveOn(h, done + {t}) && pairs !! Entries(h, ep, done + {t}) <==>
            && InjectiveOn(h, done) && pairs !! Entries(h, ep, done)
            && (h(t), ep) !in pairs + Entries(h, ep, done)
  {
    assert Entries(h, ep, done + {t}) == Entries(h, ep, done) + {(h(t), ep)};
    if (h(t), ep) in Entries(h, ep, done) {
      var u :| u in done && h(u) == h(t);
      assert u in done + {t} && t in done + {t};
    }
    if InjectiveOn(h, done) && (h(t), ep) !in Entries(h, ep, done) {
      assert forall u :: u in done ==> (h(u), ep) in Entries(h, ep, done);
    }
  }

  /**
   * How an upsert must change the pairs when the new tokens do not collide, and that otherwise,
   * the old ones being distinct, an insertion meets its own endpoint.
   */
  lemma UpsertPairs(h: TokenHash, servers: map<Address, ServerData>, ep: Address, icao: string, tokens: set<Token>)
    requires EachInjective(h, servers)
    ensures var pairs := Pairs(h, EndpointsWith(servers));
            var pairs' := Pairs(h, EndpointsWith(servers[ep := ServerData(icao, tokens)]));
            var had := if ep in servers then servers[ep].tokens else {};
            && (InjectiveOn(h, tokens) ==>
               pairs' == pairs - Entries(h, ep, had - tokens) + Entries(h, ep, tokens - had))
            && (InjectiveOn(h, tokens) <==>
                  InjectiveOn(h, tokens - had)
                    && (pairs - Entries(h, ep, had - tokens)) !! Entries(h, ep, tokens - had))
            && (ep !in servers ==> pairs !! Entries(h, ep, tokens) && pairs' == pairs + Entries(h, ep, tokens))
  {
    hide Pairs, Entries, InjectiveOn;
    var eps := EndpointsWith(servers);
    var eps' := EndpointsWith(servers[ep := ServerData(icao, tokens)]);
    var had := if ep in servers then servers[ep].tokens else {};
    if ep !in servers { NoneInjective(h); }
    forall x ensures
        && (InjectiveOn(h, tokens) ==>
           (x in Pairs(h, eps') <==> x in Pairs(h, eps) - Entries(h, ep, had - tokens) + Entries(h, ep, tokens - had)))
        && (x in Pairs(h, eps) - Entries(h, ep, had - tokens) && x in Entries(h, ep, tokens - had) <==>
              x.1 == ep && x.0 in Hashes(h, had * tokens) && x.0 in Hashes(h, tokens - had))
        && (ep !in servers ==>
           (x in Pairs(h, eps') <==> x in Pairs(h, eps) + Entries(h, ep, tokens))
             && !(x in Pairs(h, eps) && x in Entries(h, ep, tokens))) {
      PairIn(h, eps, x.0, x.1);
      PairIn(h, eps', x.0, x.1);
      EntryIn(h, ep, had - tokens, x);
      EntryIn(h, ep, tokens - had, x);
      EntryIn(h, ep, tokens, x);
      SplitHashes(h, had, tokens, x.0);
      assert x == (x.0, x.1);
    }
    var left := Pairs(h, eps) - Entries(h, ep, had - tokens);
    SplitInjective(h, had, tokens);
    if exists k :: k in Hashes(h, had * tokens) && k in Hashes(h, tokens - had) {
      var k :| k in Hashes(h, had * tokens) && k in Hashes(h, tokens - had);
      assert (k, ep) in left && (k, ep) in Entries(h, ep, tokens - had);
    }
  }

  lemma NoneInjective(h: TokenHash)
    ensures InjectiveOn(h, {})
  {}

  /** A hash of the old tokens belongs to a kept or to a dropped one, not both. */
  lemma SplitHashes(h: TokenHash, had: set<Token>, tokens: set<Token>, k: U64)
    requires InjectiveOn(h, had)
    ensures k in Hashes(h, had * tokens) <==> k in Hashes(h, had) && k !in Hashes(h, had - tokens)
    ensures k in Hashes(h, tokens) <==> k in Hashes(h, had * tokens) || k in Hashes(h, tokens - had)
  {
    if k in Hashes(h, had) {
      var t :| t in had && h(t) == k;
      if t in tokens { assert t in had * tokens; } else { assert t in had - tokens; }
    }
    if k in Hashes(h, tokens) {
      var t :| t in tokens && h(t) == k;
      if t in had { assert t in had * tokens; } else { assert t in tokens - had; }
    }
  }

  lemma SplitInjective(h: TokenHash, had: set<Token>, tokens: set<Token>)
    requires InjectiveOn(h, had)
    ensures InjectiveOn(h, tokens) <==>
            InjectiveOn(h, tokens - had) && !exists k :: k in Hashes(h, had * tokens) && k in Hashes(h, tokens - had)
  {
    assert forall t :: t in had * tokens ==> t in tokens && h(t) in Hashes(h, had * tokens);
    assert forall t :: t in tokens - had ==> t in tokens && h(t) in Hashes(h, tokens - had);
    assert forall t :: t in tokens ==> t in had * tokens || t in tokens - had;
  }

  lemma RemovePairs(h: TokenHash, servers: map<Address, ServerData>, ep: Address)
    requires ep in servers
    ensures Pairs(h, EndpointsWith(servers - {ep})) ==
            Pairs(h, EndpointsWith(servers)) - Entries(h, ep, servers[ep].tokens)
  {
    hide Pairs, Entries;
    var eps, eps' := EndpointsWith(servers), EndpointsWith(servers - {ep});
    forall x ensures x in Pairs(h, eps') <==> x in Pairs(h, eps) - Entries(h, ep, servers[ep].tokens) {
      PairIn(h, eps, x.0, x.1);
      PairIn(h, eps', x.0, x.1);
      EntryIn(h, ep, servers[ep].tokens, x);
      assert x == (x.0, x.1);
    }
  }

  /** The list under a token's hash names, once each, exactly the servers that hold the token. */
  lemma ListedAreHolders(h: TokenHash, tm: Reverse, servers: map<Address, ServerData>, t: Token, a: Address)
    requires Exact(h, tm, servers)
    requires InjectiveOn(h, (set b, u | b in servers && u in servers[b].tokens :: u) + {t})
    ensures a in GetOr(tm, h(t), []) <==> a in servers && t in servers[a].tokens
    ensures h(t) in tm ==> tm[h(t)] != [] && NoDuplicates(tm[h(t)])
  {
    var eps := EndpointsWith(servers);
    PairIn(h, eps, h(t), a);
    assert (h(t), a) in Pairs(h, eps) <==> a in GetOr(tm, h(t), []);
    if a in servers && h(t) in Hashes(h, eps[a].tokens) {
      var u :| u in eps[a].tokens && h(u) == h(t);
      assert u in servers[a].tokens;
    }
  }
}
