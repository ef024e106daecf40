/**
 * EndpointSet::corrosion_apply (src/net/cluster.rs): a stream of row changes is applied to the
 * endpoints while the set's token map, and the map shared by the whole cluster, are patched entry
 * by entry instead of being rebuilt.
 */
module Corrosion {
  import opened Base
  import opened MultiMaps
  import opened Endpoints
  import opened EndpointSets
  import opened Localities

  datatype Row = Row(address: Address, tokens: set<Token>)

  datatype Kind = Insertion | Modification | Deletion

  datatype Change = Change(kind: Kind, row: Row)

  /** A row is None when it could not be deserialized. */
  datatype StreamEvent =
    | Failed
    | Changed(kind: Kind, row: Option<Row>, id: nat)
    | Existing(row: Option<Row>)
    | EndOfQuery(last: Option<nat>)
    | Ignored

  /** The change an event stands for, if any; the rows of the initial query count as insertions. */
  function ChangeOf(e: StreamEvent): Option<Change> {
    match e
    case Changed(kind, Some(row), _) => Some(Change(kind, row))
    case Existing(Some(row)) => Some(Change(Insertion, row))
    case _ => None
  }

  function IdAfter(id: nat, e: StreamEvent): nat {
    match e
    case Changed(_, _, i) => if i > id then i else id
    case EndOfQuery(Some(i)) => if i > id then i else id
    case _ => id
  }

  // ---- What a change does to the endpoints, and to the indexed pairs ----

  function EpsAfter(eps: EndpointMap, c: Change): EndpointMap {
    var Row(a, ts) := c.row;
    match c.kind
    case Insertion => eps[a := Metadata(ts, map[])]
    case Modification => if a in eps then eps[a := eps[a].(tokens := ts)] else eps[a := Metadata(ts, map[])]
    case Deletion => eps - {a}
  }

  /** Only the entries the source touches, one by one. */
  function PairsAfter(h: TokenHash, eps: EndpointMap, pairs: set<(U64, Address)>, c: Change): set<(U64, Address)> {
    var Row(a, ts) := c.row;
    var had := if a in eps then eps[a].tokens else {};
    match c.kind
    case Insertion => pairs + Entries(h, a, ts)
    case Modification => pairs - Entries(h, a, had - ts) + Entries(h, a, ts - had)
    case Deletion => pairs - Entries(h, a, had)
  }

  /**
   * The changes the incremental patch gets right: an insertion for a known address must carry a
   * token for every hash the address holds, and no token an update keeps may share its hash with
   * one it drops, unless a token it adds brings that hash back. Deletions are always right.
   */
  ghost predicate Harmless(h: TokenHash, eps: EndpointMap, c: Change) {
    var Row(a, ts) := c.row;
    a in eps ==>
      var had := eps[a].tokens;
      match c.kind
      case Insertion => Hashes(h, had) <= Hashes(h, ts)
      case Modification => Hashes(h, had * ts) * Hashes(h, had - ts) <= Hashes(h, ts - had)
      case Deletion => true
  }

  lemma HashesUnion(h: TokenHash, s: set<Token>, t: set<Token>)
    ensures Hashes(h, s + t) == Hashes(h, s) + Hashes(h, t)
  {}

  /** What a patch leaves in any index: it touches the hashes of dropped and of added tokens of one address. */
  lemma PatchedEntry(h: TokenHash, eps: EndpointMap, pairs: set<(U64, Address)>, c: Change, x: (U64, Address))
    ensures var had := if c.row.address in eps then eps[c.row.address].tokens else {};
            var ts := c.row.tokens;
            var dropped := if c.kind.Insertion? then {} else if c.kind.Deletion? then had else had - ts;
            var added := if c.kind.Insertion? then ts else if c.kind.Deletion? then {} else ts - had;
            x in PairsAfter(h, eps, pairs, c) <==>
              if x.1 == c.row.address && exists t :: t in added && h(t) == x.0 then true
              else x in pairs && !(x.1 == c.row.address && exists t :: t in dropped && h(t) == x.0)
  {
    hide Hashes;
    var Row(a, ts) := c.row;
    var had := if a in eps then eps[a].tokens else {};
    EntryIn(h, a, ts, x);
    EntryIn(h, a, had, x);
    EntryIn(h, a, had - ts, x);
    EntryIn(h, a, ts - had, x);
    HashIn(h, ts, x.0);
    HashIn(h, had, x.0);
    HashIn(h, had - ts, x.0);
    HashIn(h, ts - had, x.0);
  }

  lemma HashIn(h: TokenHash, tokens: set<Token>, k: U64)
    ensures k in Hashes(h, tokens) <==> exists t :: t in tokens && h(t) == k
  {}

  /** Membership after a patch and after a rebuild, hash by hash. */
  lemma PatchAt(h: TokenHash, eps: EndpointMap, c: Change, x: (U64, Address))
    ensures var had := if c.row.address in eps then eps[c.row.address].tokens else {};
            x in PairsAfter(h, eps, Pairs(h, eps), c) <==>
            if x.1 != c.row.address then x in Pairs(h, eps)
            else match c.kind
                 case Insertion => x.0 in Hashes(h, had) || x.0 in Hashes(h, c.row.tokens)
                 case Modification =>
                   (x.0 in Hashes(h, had) && x.0 !in Hashes(h, had - c.row.tokens))
                     || x.0 in Hashes(h, c.row.tokens - had)
                 case Deletion => false
    ensures x in Pairs(h, EpsAfter(eps, c)) <==>
            if x.1 != c.row.address then x in Pairs(h, eps)
            else !c.kind.Deletion? && x.0 in Hashes(h, c.row.tokens)
  {
    hide Hashes, Pairs, Entries;
    var a, ts := c.row.address, c.row.tokens;
    var had := if a in eps then eps[a].tokens else {};
    PairIn(h, eps, x.0, x.1);
    PairIn(h, EpsAfter(eps, c), x.0, x.1);
    EntryIn(h, a, ts, x);
    EntryIn(h, a, had, x);
    EntryIn(h, a, had - ts, x);
    EntryIn(h, a, ts - had, x);
    if a !in eps { NoHashes(h); }
  }

  lemma NoHashes(h: TokenHash)
    ensures Hashes(h, {}) == {}
  {}

  /** One change keeps the patched index equal to a rebuilt one exactly when it is harmless. */
  lemma PatchRefinesRebuild(h: TokenHash, eps: EndpointMap, c: Change)
    ensures PairsAfter(h, eps, Pairs(h, eps), c) == Pairs(h, EpsAfter(eps, c)) <==> Harmless(h, eps, c)
  {
    hide Pairs, PairsAfter, EpsAfter, Hashes;
    var a, ts := c.row.address, c.row.tokens;
    var had := if a in eps then eps[a].tokens else {};
    var patched, rebuilt := PairsAfter(h, eps, Pairs(h, eps), c), Pairs(h, EpsAfter(eps, c));
    HashesUnion(h, had * ts, had - ts);
    assert had * ts + (had - ts) == had;
    HashesUnion(h, had * ts, ts - had);
    assert had * ts + (ts - had) == ts;
    NoHashes(h);
    if a !in eps {
      assert had - ts == {} && had * ts == {};
    }
    if Harmless(h, eps, c) {
      forall x ensures x in patched <==> x in rebuilt {
        PatchAt(h, eps, c, x);
      }
    } else if c.kind.Insertion? {
      var k :| k in Hashes(h, had) && k !in Hashes(h, ts);
      PatchAt(h, eps, c, (k, a));
      assert (k, a) in patched && (k, a) !in rebuilt;
    } else {
      var k :| k in Hashes(h, had * ts) && k in Hashes(h, had - ts) && k !in Hashes(h, ts - had);
      PatchAt(h, eps, c, (k, a));
      assert (k, a) !in patched && (k, a) in rebuilt;
    }
  }

  /** An update that drops a token sharing its hash with a kept one loses the kept one's entry. */
  lemma CollidingUpdateLosesEntry(h: TokenHash, a: Address, kept: Token, dropped: Token)
    requires kept != dropped && h(kept) == h(dropped)
    ensures var eps := map[a := Metadata({kept, dropped}, map[])];
            var c := Change(Modification, Row(a, {kept}));
            && (h(kept), a) in Pairs(h, EpsAfter(eps, c))
            && (h(kept), a) !in PairsAfter(h, eps, Pairs(h, eps), c)
  {
    var eps := map[a := Metadata({kept, dropped}, map[])];
    var had, ts := {kept, dropped}, {kept};
    assert eps[a].tokens == had && had - ts == {dropped} && ts - had == {};
    assert h(kept) in Hashes(h, ts) && h(dropped) in Hashes(h, had - ts);
    NoHashes(h);
    PatchAt(h, eps, Change(Modification, Row(a, ts)), (h(kept), a));
  }

  /** An insertion that forgets a token the address has leaves the token's entry behind. */
  lemma ForgetfulInsertKeepsEntry(h: TokenHash, a: Address, forgotten: Token)
    ensures var eps := map[a := Metadata({forgotten}, map[])];
            var c := Change(Insertion, Row(a, {}));
            && (h(forgotten), a) !in Pairs(h, EpsAfter(eps, c))
            && (h(forgotten), a) in PairsAfter(h, eps, Pairs(h, eps), c)
  {
    var eps := map[a := Metadata({forgotten}, map[])];
    assert h(forgotten) in Hashes(h, eps[a].tokens);
    NoHashes(h);
    PatchAt(h, eps, Change(Insertion, Row(a, {})), (h(forgotten), a));
  }

  // ---- Runs ----

  function EpsAfterAll(eps: EndpointMap, cs: seq<Change>): EndpointMap {
    if cs == [] then eps else EpsAfter(EpsAfterAll(eps, cs[..|cs| - 1]), cs[|cs| - 1])
  }

  function PairsAfterAll(h: TokenHash, eps: EndpointMap, pairs: set<(U64, Address)>,
                         cs: seq<Change>): set<(U64, Address)> {
    if cs == [] then pairs
    else
      var pre := cs[..|cs| - 1];
      PairsAfter(h, EpsAfterAll(eps, pre), PairsAfterAll(h, eps, pairs, pre), cs[|cs| - 1])
  }

  /** Every change is harmless for the endpoints it meets. */
  ghost predicate AllHarmless(h: TokenHash, eps: EndpointMap, cs: seq<Change>) {
    forall i :: 0 <= i < |cs| ==> Harmless(h, EpsAfterAll(eps, cs[..i]), cs[i])
  }

  /** After every prefix of the stream the incrementally kept pairs are those of a rebuild. */
  ghost predicate AlwaysRebuilt(h: TokenHash, eps: EndpointMap, cs: seq<Change>) {
    forall i :: 0 <= i <= |cs| ==> PairsAfterAll(h, eps, Pairs(h, eps), cs[..i]) == Pairs(h, EpsAfterAll(eps, cs[..i]))
  }

  /** The incremental index is at every moment the rebuilt one exactly when every change is harmless. */
  lemma {:induction false} IncrementalRefinesRebuild(h: TokenHash, eps: EndpointMap, cs: seq<Change>)
    ensures AlwaysRebuilt(h, eps, cs) <==> AllHarmless(h, eps, cs)
  {
    hide Pairs, PairsAfter, EpsAfter, Harmless, AlwaysRebuilt, AllHarmless;
    if cs == [] {
      NothingChanged(h, eps);
    } else {
      var n := |cs| - 1;
      IncrementalRefinesRebuild(h, eps, cs[..n]);
      SplitLast(h, eps, cs, n);
      PatchRefinesRebuild(h, EpsAfterAll(eps, cs[..n]), cs[n]);
    }
  }

  lemma NothingChanged(h: TokenHash, eps: EndpointMap)
    ensures AlwaysRebuilt(h, eps, []) && AllHarmless(h, eps, [])
  {}

  lemma SplitLast(h: TokenHash, eps: EndpointMap, cs: seq<Change>, n: nat)
    requires |cs| == n + 1
    ensures AllHarmless(h, eps, cs) <==> AllHarmless(h, eps, cs[..n]) && Harmless(h, EpsAfterAll(eps, cs[..n]), cs[n])
    ensures AlwaysRebuilt(h, eps, cs) <==>
            && AlwaysRebuilt(h, eps, cs[..n])
            && PairsAfterAll(h, eps, Pairs(h, eps), cs) == Pairs(h, EpsAfterAll(eps, cs))
    ensures AlwaysRebuilt(h, eps, cs[..n]) ==>
            PairsAfterAll(h, eps, Pairs(h, eps), cs[..n]) == Pairs(h, EpsAfterAll(eps, cs[..n]))
  {
    hide Pairs, PairsAfterAll, EpsAfterAll, Harmless;
    assert forall i :: 0 <= i <= n ==> cs[..n][..i] == cs[..i];
    assert cs[..n + 1] == cs && cs[..n][..n] == cs[..n];
  }

  // ---- The patching code ----

  method InsertTokens(h: TokenHash, tm: TokenMap, a: Address, tokens: set<Token>, ghost pairs: set<(U64, Address)>)
      returns (tm': TokenMap)
    requires Indexes(tm, pairs)
    ensures Indexes(tm', pairs + Entries(h, a, tokens))
  {
    hide Indexes;
    tm' := IndexTokens(h, tm, a, tokens, pairs);
  }

  method RemoveTokens(h: TokenHash, tm: TokenMap, a: Address, tokens: set<Token>, ghost pairs: set<(U64, Address)>)
      returns (tm': TokenMap)
    requires Indexes(tm, pairs)
    ensures Indexes(tm', pairs - Entries(h, a, tokens))
  {
    hide Indexes;
    tm' := tm;
    var todo := tokens;
    assert tokens - todo == {} && Entries(h, a, {}) == {} && pairs - {} == pairs;
    while todo != {}
      invariant todo <= tokens
      invariant Indexes(tm', pairs - Entries(h, a, tokens - todo))
    {
      var t :| t in todo;
      IndexRemove(tm', pairs - Entries(h, a, tokens - todo), h(t), a);
      tm' := Remove(tm', h(t), a);
      assert tokens - (todo - {t}) == (tokens - todo) + {t};
      assert Entries(h, a, (tokens - todo) + {t}) == Entries(h, a, tokens - todo) + {(h(t), a)};
      assert pairs - Entries(h, a, tokens - todo) - {(h(t), a)} == pairs - Entries(h, a, tokens - (todo - {t}));
      todo := todo - {t};
    }
    assert tokens - {} == tokens;
  }

  /** One change, on one token map; the source runs it on the set's map and on the shared map alike. */
  method PatchMap(h: TokenHash, eps: EndpointMap, tm: TokenMap, c: Change, ghost pairs: set<(U64, Address)>)
      returns (tm': TokenMap)
    requires Indexes(tm, pairs)
    ensures Indexes(tm', PairsAfter(h, eps, pairs, c))
  {
    hide Indexes, Entries;
    var Row(a, ts) := c.row;
    match c.kind
    case Insertion =>
      tm' := InsertTokens(h, tm, a, ts, pairs);
    case Modification =>
      if a !in eps {
        tm' := InsertTokens(h, tm, a, ts, pairs);
        NoEntries(h, a);
        assert {} - ts == {} && ts - {} == ts && pairs - {} == pairs;
      } else {
        tm' := RemoveTokens(h, tm, a, eps[a].tokens - ts, pairs);
        tm' := InsertTokens(h, tm', a, ts - eps[a].tokens, pairs - Entries(h, a, eps[a].tokens - ts));
      }
    case Deletion =>
      if a !in eps {
        NoEntries(h, a);
        assert pairs - {} == pairs;
        return tm;
      }
      tm' := RemoveTokens(h, tm, a, eps[a].tokens, pairs);
  }

  lemma NoEntries(h: TokenHash, a: Address)
    ensures Entries(h, a, {}) == {}
  {}

  lemma OneMore(h: TokenHash, eps: EndpointMap, pairs: set<(U64, Address)>, cs: seq<Change>, c: Change)
    ensures EpsAfterAll(eps, cs + [c]) == EpsAfter(EpsAfterAll(eps, cs), c)
    ensures PairsAfterAll(h, eps, pairs, cs + [c]) ==
            PairsAfter(h, EpsAfterAll(eps, cs), PairsAfterAll(h, eps, pairs, cs), c)
  {
    assert (cs + [c])[..|cs|] == cs;
  }

  function ChangesIn(events: seq<StreamEvent>): seq<Change> {
    if events == [] then []
    else
      var c := ChangeOf(events[|events| - 1]);
      ChangesIn(events[..|events| - 1]) + if c.Some? then [c.value] else []
  }

  /** The stream changed the endpoints; version and memo are as they were. */
  ghost predicate Streamed(s: EndpointSet, events: seq<StreamEvent>, s': EndpointSet) {
    s'.endpoints == EpsAfterAll(s.endpoints, ChangesIn(events)) && s'.hash == s.hash && s'.cache == s.cache
  }

  function LastId(id: nat, events: seq<StreamEvent>): nat {
    if events == [] then id else IdAfter(LastId(id, events[..|events| - 1]), events[|events| - 1])
  }

  // ---- What a stream means, address by address ----

  predicate RowFor(e: StreamEvent, a: Address) {
    (e.Changed? || e.Existing?) && e.row.Some? && e.row.value.address == a
  }

  ghost predicate Silent(events: seq<StreamEvent>, a: Address) {
    forall i :: 0 <= i < |events| ==> !RowFor(events[i], a)
  }

  /** The last event with a row for `a`. */
  ghost predicate LastFor(events: seq<StreamEvent>, a: Address, e: StreamEvent) {
    exists i :: LastAt(events, a, i) && events[i] == e
  }

  ghost predicate LastAt(events: seq<StreamEvent>, a: Address, i: int) {
    0 <= i < |events| && RowFor(events[i], a) && forall j :: i < j < |events| ==> !RowFor(events[j], a)
  }

  predicate Deletes(e: StreamEvent) {
    e.Changed? && e.kind.Deletion?
  }

  predicate Updates(e: StreamEvent) {
    e.Changed? && e.kind.Modification?
  }

  ghost predicate OnlyUpdated(events: seq<StreamEvent>, a: Address) {
    forall i :: 0 <= i < |events| && RowFor(events[i], a) ==> Updates(events[i])
  }

  /**
   * The last row of an address decides whether it is there and with which tokens; an address
   * without rows is as it was. Metadata that is not tokens outlives updates only.
   */
  ghost predicate DecidedAt(events: seq<StreamEvent>, was: EndpointMap, now: EndpointMap, a: Address) {
    && (Silent(events, a) ==> Get(now, a) == Get(was, a))
    && (forall e :: LastFor(events, a, e) ==>
          if Deletes(e) then a !in now else a in now && now[a].tokens == e.row.value.tokens)
    && (a in now ==> now[a].unknown == if a in was && OnlyUpdated(events, a) then was[a].unknown else map[])
  }

  ghost predicate LastRowDecides(events: seq<StreamEvent>, was: EndpointMap, now: EndpointMap) {
    forall a :: DecidedAt(events, was, now, a)
  }

  /** One event, at one address. */
  ghost predicate MovedAt(e: StreamEvent, was: EndpointMap, now: EndpointMap, a: Address) {
    if !RowFor(e, a) then Get(now, a) == Get(was, a)
    else if Deletes(e) then a !in now
    else
      Get(now, a) == Some(Metadata(e.row.value.tokens, if a in was && Updates(e) then was[a].unknown else map[]))
  }

  lemma EventMoves(eps: EndpointMap, e: StreamEvent, a: Address)
    ensures MovedAt(e, eps, if ChangeOf(e).Some? then EpsAfter(eps, ChangeOf(e).value) else eps, a)
  {}

  lemma {:induction false} StreamDecides(eps: EndpointMap, events: seq<StreamEvent>)
    ensures LastRowDecides(events, eps, EpsAfterAll(eps, ChangesIn(events)))
  {
    hide EpsAfter, ChangeOf, DecidedAt, MovedAt, EpsAfterAll, ChangesIn;
    if events == [] {
      forall a ensures DecidedAt([], eps, eps, a) {
        NothingDecides(eps, a);
      }
      NothingStreamed(eps);
    } else {
      var n := |events| - 1;
      StreamDecides(eps, events[..n]);
      var mid, now := EpsAfterAll(eps, ChangesIn(events[..n])), EpsAfterAll(eps, ChangesIn(events));
      StreamLast(eps, events, n);
      forall a ensures DecidedAt(events, eps, now, a) {
        EventMoves(mid, events[n], a);
        DecidedLast(eps, events, n, mid, now, a);
      }
    }
  }

  lemma NothingDecides(eps: EndpointMap, a: Address)
    ensures DecidedAt([], eps, eps, a)
  {}

  lemma NothingStreamed(eps: EndpointMap)
    ensures EpsAfterAll(eps, ChangesIn([])) == eps
  {}

  lemma LastForLast(events: seq<StreamEvent>, n: nat, a: Address, e: StreamEvent)
    requires |events| == n + 1
    ensures Silent(events, a) <==> Silent(events[..n], a) && !RowFor(events[n], a)
    ensures OnlyUpdated(events, a) <==>
            OnlyUpdated(events[..n], a) && (RowFor(events[n], a) ==> Updates(events[n]))
    ensures LastFor(events, a, e) <==>
            if RowFor(events[n], a) then e == events[n] else LastFor(events[..n], a, e)
  {
    hide RowFor, Updates;
    var before := events[..n];
    assert forall i :: 0 <= i < n ==> before[i] == events[i];
    if RowFor(events[n], a) {
      assert LastAt(events, a, n);
    } else {
      assert forall i :: LastAt(events, a, i) <==> LastAt(before, a, i);
    }
  }

  lemma DecidedLast(eps: EndpointMap, events: seq<StreamEvent>, n: nat, mid: EndpointMap, now: EndpointMap, a: Address)
    requires |events| == n + 1
    requires DecidedAt(events[..n], eps, mid, a) && MovedAt(events[n], mid, now, a)
    ensures DecidedAt(events, eps, now, a)
  {
    hide Silent, LastFor, OnlyUpdated;
    LastForLast(events, n, a, events[n]);
    forall e
      ensures LastFor(events, a, e) <==> if RowFor(events[n], a) then e == events[n] else LastFor(events[..n], a, e) {
      LastForLast(events, n, a, e);
    }
    if RowFor(events[n], a) && OnlyUpdated(events, a) {
      UpdatedStays(eps, events[..n], mid, a);
    }
  }

  /** Updates alone never make an address go. */
  lemma UpdatedStays(eps: EndpointMap, events: seq<StreamEvent>, now: EndpointMap, a: Address)
    requires DecidedAt(events, eps, now, a) && OnlyUpdated(events, a)
    ensures a in eps ==> a in now
  {
    hide RowFor;
    if !Silent(events, a) {
      var e := LastRow(events, a);
    }
  }

  lemma {:induction false} LastRow(events: seq<StreamEvent>, a: Address) returns (e: StreamEvent)
    requires !Silent(events, a)
    ensures LastFor(events, a, e) && e in events
  {
    hide RowFor, LastFor;
    var n := |events| - 1;
    if RowFor(events[n], a) {
      e := events[n];
    } else {
      LastForLast(events, n, a, events[n]);
      e := LastRow(events[..n], a);
    }
    LastForLast(events, n, a, e);
  }

  lemma StreamLast(eps: EndpointMap, events: seq<StreamEvent>, n: nat)
    requires |events| == n + 1
    ensures var mid, c := EpsAfterAll(eps, ChangesIn(events[..n])), ChangeOf(events[n]);
            EpsAfterAll(eps, ChangesIn(events)) == if c.Some? then EpsAfter(mid, c.value) else mid
  {
    hide EpsAfter, ChangeOf;
    var done, c := ChangesIn(events[..n]), ChangeOf(events[n]);
    if c.Some? {
      assert (done + [c.value])[..|done|] == done;
    } else {
      assert done + [] == done;
    }
  }

  /** The change id is the highest of the one before and those the stream brought. */
  ghost predicate HighestId(events: seq<StreamEvent>, was: nat, now: nat) {
    && now >= was && (forall i, id: nat :: 0 <= i < |events| && Brings(events[i], id) ==> id <= now)
    && (now == was || exists i :: 0 <= i < |events| && Brings(events[i], now))
  }

  predicate Brings(e: StreamEvent, id: nat) {
    (e.Changed? && e.id == id) || (e.EndOfQuery? && e.last == Some(id))
  }

  lemma {:induction false} LastIsHighest(id: nat, events: seq<StreamEvent>)
    ensures HighestId(events, id, LastId(id, events))
  {
    if events != [] {
      var n := |events| - 1;
      var before, mid := events[..n], LastId(id, events[..n]);
      LastIsHighest(id, before);
      assert forall i :: 0 <= i < n ==> before[i] == events[i];
      var now := IdAfter(mid, events[n]);
      if now != id && !Brings(events[n], now) {
        var i :| 0 <= i < n && Brings(before[i], mid);
        assert Brings(events[i], now);
      }
    }
  }

  /**
   * Applies a stream to the set and to the shared map; `own` and `sharedPairs` are what the two
   * maps index before. `gained` is the change in the number of endpoints.
   */
  method CorrosionApply(h: Hashing, s: EndpointSet, shared: TokenMap, events: seq<StreamEvent>,
                        ghost own: set<(U64, Address)>, ghost sharedPairs: set<(U64, Address)>)
      returns (s': EndpointSet, shared': TokenMap, gained: int)
    requires Indexes(s.tokenMap, own) && Indexes(shared, sharedPairs)
    ensures Streamed(s, events, s') && s'.changeId == LastId(s.changeId, events)
    ensures LastRowDecides(events, s.endpoints, s'.endpoints) && HighestId(events, s.changeId, s'.changeId)
    ensures Indexes(s'.tokenMap, PairsAfterAll(h.token, s.endpoints, own, ChangesIn(events)))
    ensures Indexes(shared', PairsAfterAll(h.token, s.endpoints, sharedPairs, ChangesIn(events)))
    ensures gained == |s'.endpoints| - |s.endpoints|
  {
    hide Indexes, Pairs, PairsAfter, EpsAfter, TokenMapOf, PairsAfterAll, EpsAfterAll, IdAfter, ChangeOf,
         LastRowDecides, HighestId;
    StreamDecides(s.endpoints, events);
    LastIsHighest(s.changeId, events);
    NoChange(h.token, s.endpoints, own);
    NoChange(h.token, s.endpoints, sharedPairs);
    s', shared' := s, shared;
    for i := 0 to |events|
      invariant Streamed(s, events[..i], s') && s'.changeId == LastId(s.changeId, events[..i])
      invariant Indexes(s'.tokenMap, PairsAfterAll(h.token, s.endpoints, own, ChangesIn(events[..i])))
      invariant Indexes(shared', PairsAfterAll(h.token, s.endpoints, sharedPairs, ChangesIn(events[..i])))
    {
      assert events[..i + 1][..i] == events[..i];
      ghost var done := ChangesIn(events[..i]);
      s' := s'.(changeId := IdAfter(s'.changeId, events[i]));
      var c := ChangeOf(events[i]);
      if c.Some? {
        OneMore(h.token, s.endpoints, own, done, c.value);
        OneMore(h.token, s.endpoints, sharedPairs, done, c.value);
        var tm := PatchMap(h.token, s'.endpoints, s'.tokenMap, c.value, PairsAfterAll(h.token, s.endpoints, own, done));
        shared' := PatchMap(h.token, s'.endpoints, shared', c.value,
          PairsAfterAll(h.token, s.endpoints, sharedPairs, done));
        s' := s'.(endpoints := EpsAfter(s'.endpoints, c.value), tokenMap := tm);
      } else {
        assert done + [] == done;
      }
    }
    assert events[..|events|] == events;
    gained := |s'.endpoints| - |s.endpoints|;
  }

  lemma NoChange(h: TokenHash, eps: EndpointMap, pairs: set<(U64, Address)>)
    ensures EpsAfterAll(eps, []) == eps && PairsAfterAll(h, eps, pairs, []) == pairs
  {}

  /**
   * A harmless stream leaves the patched maps as a rebuild would make them, without empty entries;
   * the shared map follows when it indexed only this set before.
   */
  lemma PatchedMapsAreRebuilt(h: TokenHash, eps: EndpointMap, cs: seq<Change>, tm: TokenMap)
    requires AllHarmless(h, eps, cs)
    requires Indexes(tm, PairsAfterAll(h, eps, Pairs(h, eps), cs))
    ensures tm == TokenMapOf(h, EpsAfterAll(eps, cs))
    ensures forall k :: k in tm ==> tm[k] != {}
  {
    hide AllHarmless, PairsAfterAll, EpsAfterAll, Pairs;
    IncrementalRefinesRebuild(h, eps, cs);
    assert cs[..|cs|] == cs;
    var pairs := Pairs(h, EpsAfterAll(eps, cs));
    IndexUnique(tm, Index(pairs), pairs);
  }

  /**
   * A set is encoded, a stream comes, and the set is encoded again for the same locality: the
   * version has not moved, so the old content is served, which is current exactly when the
   * stream as a whole changed no address and no token.
   */
  lemma StaleAfterStream(h: Hashing, s: EndpointSet, locality: Option<Locality>, events: seq<StreamEvent>,
                         s': EndpointSet)
    requires Truthful(h, s) && Streamed(EncodedSpec(s, locality).1, events, s')
    requires s.cache.Some? ==> InjectiveContent(h, {View(s.cache.value.resource.endpoints), View(s.endpoints)})
    ensures View(EncodedSpec(s', locality).0.endpoints) == View(s.endpoints)
    ensures View(EncodedSpec(s', locality).0.endpoints) == View(s'.endpoints) <==>
            View(EpsAfterAll(s.endpoints, ChangesIn(events))) == View(s.endpoints)
  {
    hide View, EpsAfterAll, ChangesIn;
  }

  /** One row inserted into an empty set that had been encoded: the set is still served empty. */
  lemma InsertIsNotServed(h: Hashing, locality: Option<Locality>, row: Row, s': EndpointSet)
    requires Streamed(EncodedSpec(Fresh(h, map[]), locality).1, [Existing(Some(row))], s')
    ensures s'.endpoints == map[row.address := Metadata(row.tokens, map[])]
    ensures EncodedSpec(s', locality).0.endpoints == map[]
  {
    hide TokenMapOf, View, EpsAfterAll, ChangesIn;
    OneInsertion(row);
  }

  lemma OneInsertion(row: Row)
    ensures EpsAfterAll(map[], ChangesIn([Existing(Some(row))])) == map[row.address := Metadata(row.tokens, map[])]
  {
    var e, c := Existing(Some(row)), Change(Insertion, row);
    assert [e][..0] == [] && ChangesIn([]) == [] && [] + [c] == [c];
    assert ChangesIn([e]) == [c];
    assert [c][..0] == [] && EpsAfterAll(map[], []) == map[];
  }
}
