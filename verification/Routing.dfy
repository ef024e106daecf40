/**
 * Token routing end to end: tokens generated for static endpoints (src/providers.rs), captured from
 * a packet (src/filters/capture.rs), looked up in the cluster (src/filters/token_router.rs), in a
 * filter chain (src/filters/chain.rs).
 */
module Routing {
  import opened Base
  import opened Endpoints
  import opened EndpointSets
  import opened TokenIndex
  import opened Clusters
  import opened MultiMaps

  // ---- Generated tokens ----

  /** The low `length` bytes of a little-endian counter. */
  function LeBytes(i: nat, length: nat): (r: Token)
    ensures |r| == length
  {
    if length == 0 then [] else [i % 256] + LeBytes(i / 256, length - 1)
  }

  /** Byte k of a token is the k-th byte of its counter. */
  lemma {:induction false} LeByteAt(i: nat, length: nat, k: nat)
    requires k < length
    ensures LeBytes(i, length)[k] == (i / Pow256(k)) % 256
  {
    if k > 0 {
      LeByteAt(i / 256, length - 1, k - 1);
      DropBytes(i, k - 1);
    }
  }

  lemma {:induction false} LeBytesInjective(i: nat, j: nat, length: nat)
    requires i < Pow256(length) && j < Pow256(length) && LeBytes(i, length) == LeBytes(j, length)
    ensures i == j
  {
    if length > 0 {
      assert LeBytes(i, length)[0] == LeBytes(j, length)[0];
      assert LeBytes(i, length)[1..] == LeBytes(i / 256, length - 1);
      assert LeBytes(j, length)[1..] == LeBytes(j / 256, length - 1);
      LeBytesInjective(i / 256, j / 256, length - 1);
    }
  }

  datatype GenerateError = TooLong | TooFew

  function TokensFor(ind: nat, count: nat, length: nat): set<Token> {
    set i | ind * count <= i < ind * count + count :: LeBytes(i, length)
  }

  function StaticEndpoints(addresses: seq<Address>, count: nat, length: nat): EndpointMap {
    if addresses == [] then map[]
    else
      var n := |addresses| - 1;
      StaticEndpoints(addresses[..n], count, length)[addresses[n] := Metadata(TokensFor(n, count, length), map[])]
  }

  /** Endpoint k has the tokens k * count to (k + 1) * count - 1 and no other. */
  ghost predicate InSlots(eps: EndpointMap, addresses: seq<Address>, count: nat, length: nat) {
    && (forall a :: a in eps <==> a in addresses)
    && forall k, t :: 0 <= k < |addresses| && addresses[k] in eps ==>
         (t in eps[addresses[k]].tokens <==> exists i :: k * count <= i < k * count + count && t == LeBytes(i, length))
  }

  lemma StaticInSlots(addresses: seq<Address>, count: nat, length: nat)
    requires NoDuplicates(addresses)
    ensures InSlots(StaticEndpoints(addresses, count, length), addresses, count, length)
  {
    hide StaticEndpoints, NoDuplicates;
    StaticIn(addresses, count, length);
    forall k | 0 <= k < |addresses|
      ensures Get(StaticEndpoints(addresses, count, length), addresses[k]) ==
              Some(Metadata(TokensFor(k, count, length), map[])) {
      StaticAt(addresses, count, length, k);
    }
  }

  /** The source's two panics, on a length whose counter does not fit 64 bits and on too few tokens. */
  method GenerateEndpoints(addresses: seq<Address>, count: nat, length: nat)
      returns (r: Result<EndpointMap, GenerateError>)
    ensures r == Err(TooLong) <==> Pow256(length) >= 0x1_0000_0000_0000_0000
    ensures r == Err(TooFew) <==> |addresses| * count > Pow256(length) && Pow256(length) < 0x1_0000_0000_0000_0000
    ensures r.Ok? <==> |addresses| * count <= Pow256(length) && Pow256(length) < 0x1_0000_0000_0000_0000
    ensures r.Ok? ==> r.value == StaticEndpoints(addresses, count, length)
    ensures r.Ok? && NoDuplicates(addresses) ==> InSlots(r.value, addresses, count, length)
  {
    hide InSlots;
    if NoDuplicates(addresses) {
      StaticInSlots(addresses, count, length);
    }
    if Pow256(length) >= 0x1_0000_0000_0000_0000 {
      return Err(TooLong);
    }
    if Pow256(length) < |addresses| * count {
      return Err(TooFew);
    }
    var eps: EndpointMap := map[];
    for ind := 0 to |addresses|
      invariant eps == StaticEndpoints(addresses[..ind], count, length)
    {
      assert addresses[..ind + 1][..ind] == addresses[..ind];
      eps := eps[addresses[ind] := Metadata(TokensFor(ind, count, length), map[])];
    }
    assert addresses[..|addresses|] == addresses;
    return Ok(eps);
  }

  lemma {:induction false} StaticAt(addresses: seq<Address>, count: nat, length: nat, ind: nat)
    requires NoDuplicates(addresses) && ind < |addresses|
    ensures Get(StaticEndpoints(addresses, count, length), addresses[ind]) ==
            Some(Metadata(TokensFor(ind, count, length), map[]))
    ensures forall a :: a in StaticEndpoints(addresses, count, length) ==> a in addresses
  {
    var n := |addresses| - 1;
    StaticIn(addresses, count, length);
    if ind < n {
      StaticAt(addresses[..n], count, length, ind);
      assert addresses[..n][ind] == addresses[ind];
    }
  }

  lemma {:induction false} StaticIn(addresses: seq<Address>, count: nat, length: nat)
    ensures forall a :: a in StaticEndpoints(addresses, count, length) ==> a in addresses
  {
    if addresses != [] {
      StaticIn(addresses[..|addresses| - 1], count, length);
    }
  }

  lemma SlotOf(i: nat, ind: nat, count: nat)
    requires count > 0
    ensures ind * count <= i < ind * count + count <==> ind == i / count
  {
    var q := i / count;
    assert q * count <= i < q * count + count;
    if ind < q {
      assert (ind + 1) * count <= q * count;
    } else if ind > q {
      assert (q + 1) * count <= ind * count;
    }
  }

  lemma SlotInRange(i: nat, n: nat, count: nat)
    requires count > 0
    ensures i < n * count <==> i / count < n
  {
    SlotOf(i, i / count, count);
    if i / count < n {
      assert (i / count + 1) * count <= n * count;
    } else {
      assert n * count <= (i / count) * count;
    }
  }

  /** Endpoint `ind` has exactly the tokens of the counters in its slot. */
  lemma TokenInSlot(ind: nat, count: nat, length: nat, t: Token)
    requires count > 0
    ensures t in TokensFor(ind, count, length) <==> exists i: nat :: i / count == ind && LeBytes(i, length) == t
  {
    if t in TokensFor(ind, count, length) {
      var i: nat :| ind * count <= i < ind * count + count && LeBytes(i, length) == t;
      SlotOf(i, ind, count);
      assert i / count == ind && LeBytes(i, length) == t;
    }
    if i: nat :| i / count == ind && LeBytes(i, length) == t {
      SlotOf(i, ind, count);
      assert LeBytes(i, length) in TokensFor(ind, count, length);
    }
  }

  /** All generated tokens are distinct: token i is held by endpoint i / count and by no other. */
  lemma StaticHolder(addresses: seq<Address>, count: nat, length: nat, i: nat, l: Loc)
    requires NoDuplicates(addresses) && |addresses| * count <= Pow256(length)
    requires count > 0 && i < |addresses| * count
    ensures i / count < |addresses|
    ensures Holders(map[l := StaticEndpoints(addresses, count, length)], LeBytes(i, length)) == {addresses[i / count]}
  {
    hide StaticEndpoints, TokensFor;
    var c: Contents := map[l := StaticEndpoints(addresses, count, length)];
    var t := LeBytes(i, length);
    SlotInRange(i, |addresses|, count);
    StaticAt(addresses, count, length, i / count);
    TokenInSlot(i / count, count, length, t);
    assert l in c && addresses[i / count] in c[l] && t in c[l][addresses[i / count]].tokens;
    forall a | a in Holders(c, t) ensures a == addresses[i / count] {
      var m :| m in c && a in c[m] && t in c[m][a].tokens;
      OnlyHolder(addresses, count, length, i, a);
    }
  }

  lemma OnlyHolder(addresses: seq<Address>, count: nat, length: nat, i: nat, a: Address)
    requires count > 0 && i / count < |addresses|
    requires var eps := StaticEndpoints(addresses, count, length); a in eps && LeBytes(i, length) in eps[a].tokens
    requires NoDuplicates(addresses) && |addresses| * count <= Pow256(length)
    ensures a == addresses[i / count]
  {
    hide StaticEndpoints, TokensFor, NoDuplicates, LeBytes, Pow256;
    StaticIn(addresses, count, length);
    var ind :| 0 <= ind < |addresses| && addresses[ind] == a;
    StaticAt(addresses, count, length, ind);
    TokenInSlot(ind, count, length, LeBytes(i, length));
    var j: nat :| j / count == ind && LeBytes(j, length) == LeBytes(i, length);
    SlotInRange(j, |addresses|, count);
    SlotInRange(i, |addresses|, count);
    LeBytesInjective(i, j, length);
  }

  // ---- Filters ----

  datatype MetadataValue = Bool(value: bool) | Bytes(bytes: seq<Byte>) | OtherValue

  datatype Strategy = Prefix(size: nat, remove: bool) | Suffix(size: nat, remove: bool)

  datatype Filter = Capture(key: string, strategy: Strategy) | TokenRouter(key: string)

  datatype FilterError = NoValueCaptured | NoTokenFound | NoEndpointMatch | NotBytes

  const CAPTURED_BYTES := "quilkin.dev/capture"

  /** What a strategy captures, and how much to cut: negative from the head, positive from the tail. */
  function CaptureOf(s: Strategy, contents: seq<Byte>): Option<(seq<Byte>, int)> {
    if |contents| < s.size then None
    else
      var size: int := s.size;
      if s.Prefix? then Some((contents[..size], if s.remove then -size else 0))
      else Some((contents[|contents| - size..], if s.remove then size else 0))
  }

  class ReadContext {
    var contents: seq<Byte>
    var metadata: map<string, MetadataValue>
    var destinations: seq<Address>
    const endpoints: ClusterMap

    constructor (contents: seq<Byte>, endpoints: ClusterMap)
      ensures this.contents == contents && this.endpoints == endpoints && metadata == map[] && destinations == []
    {
      this.contents, this.endpoints, metadata, destinations := contents, endpoints, map[], [];
    }

    /** Moves the captured bytes into the metadata, cutting them off the packet if asked. */
    method CaptureRead(key: string, strategy: Strategy) returns (r: Option<FilterError>)
      modifies this
      ensures destinations == old(destinations)
      ensures r == if |old(contents)| >= strategy.size then None else Some(NoValueCaptured)
      ensures r.Some? ==> contents == old(contents) && metadata == old(metadata)[key + "/is_present" := Bool(false)]
      ensures r.None? ==> exists captured ::
                && |captured| == strategy.size
                && metadata == old(metadata)[key + "/is_present" := Bool(true)][key := Bytes(captured)]
                && (if strategy.Prefix? then old(contents) == captured + old(contents)[strategy.size..]
                    else old(contents) == old(contents)[..|old(contents)| - strategy.size] + captured)
                && contents == (if !strategy.remove then old(contents)
                                else if strategy.Prefix? then old(contents)[strategy.size..]
                                else old(contents)[..|old(contents)| - strategy.size])
    {
      var capture := CaptureOf(strategy, contents);
      metadata := metadata[key + "/is_present" := Bool(capture.Some?)];
      if capture.None? {
        return Some(NoValueCaptured);
      }
      var (value, remove) := capture.value;
      metadata := metadata[key := Bytes(value)];
      if remove < 0 {
        contents := contents[-remove..];
      } else if remove > 0 {
        contents := contents[..|contents| - remove];
      }
      assert strategy.Suffix? ==> old(contents) == old(contents)[..|old(contents)| - strategy.size] + value;
      return None;
    }

    /** Adds the addresses indexed under the captured token; fails if that leaves no destination. */
    method TokenRouterRead(key: string) returns (r: Option<FilterError>)
      modifies this
      ensures contents == old(contents) && metadata == old(metadata)
      ensures key !in metadata ==> r == Some(NoTokenFound) && destinations == old(destinations)
      ensures key in metadata && !metadata[key].Bytes? ==> r == Some(NotBytes) && destinations == old(destinations)
      ensures key in metadata && metadata[key].Bytes? ==>
                && r == (if destinations == [] then Some(NoEndpointMatch) else None)
                && old(destinations) <= destinations && NoDuplicates(destinations[|old(destinations)|..])
                && forall a :: a in destinations[|old(destinations)|..] <==>
                   a in GetOr(endpoints.tokenMap, endpoints.h.token(metadata[key].bytes), {})
    {
      if key !in metadata {
        return Some(NoTokenFound);
      }
      if !metadata[key].Bytes? {
        return Some(NotBytes);
      }
      destinations := endpoints.AddressesForToken(metadata[key].bytes, destinations);
      r := if destinations == [] then Some(NoEndpointMatch) else None;
    }

    method FilterRead(f: Filter) returns (r: Option<FilterError>)
      modifies this
      ensures Ran(f, endpoints.h.token, endpoints.tokenMap, old(View()), View(), r)
    {
      match f
      case Capture(key, strategy) => r := CaptureRead(key, strategy);
      case TokenRouter(key) => r := TokenRouterRead(key);
    }

    ghost function View(): Packet
      reads this
    {
      Packet(contents, metadata, destinations)
    }

    /**
     * Runs the filters in order and stops at the first error; if all pass and no destination was
     * chosen, every endpoint becomes one. `trace` records the packet before and after each filter.
     */
    method ChainRead(filters: seq<Filter>, order: seq<Loc>) returns (r: Option<FilterError>, ghost trace: seq<Packet>)
      requires Enumerates(order, endpoints.sets.Keys)
      modifies this
      ensures |trace| >= 1 && trace[0] == old(View())
      ensures r.None? ==> |trace| == |filters| + 1
      ensures r.Some? ==> |trace| <= |filters| + 1 && 2 <= |trace|
      ensures forall i :: 0 <= i < |trace| - 1 ==>
                Ran(filters[i], endpoints.h.token, endpoints.tokenMap, trace[i], trace[i + 1],
                    if i == |trace| - 2 then r else None)
      ensures r.Some? ==> View() == trace[|trace| - 1]
      ensures r.None? ==> var last := trace[|filters|];
                View() ==
                  if last.destinations != [] then last
                  else last.(destinations := Addresses(Listing(endpoints.sets, order)))
      ensures r.None? && trace[|filters|].destinations == [] ==>
                && |destinations| == |Listing(endpoints.sets, order)|
                && forall a :: a in destinations <==>
                     exists l :: l in endpoints.sets && a in endpoints.sets[l].endpoints
    {
      hide Ran;
      trace := [View()];
      for i := 0 to |filters|
        invariant |trace| == i + 1 && trace[0] == old(View()) && trace[i] == View()
        invariant forall j :: 0 <= j < i ==>
                  Ran(filters[j], endpoints.h.token, endpoints.tokenMap, trace[j], trace[j + 1], None)
      {
        r := FilterRead(filters[i]);
        trace := trace + [View()];
        if r.Some? {
          return;
        }
      }
      r := None;
      if destinations == [] {
        var all := endpoints.AllEndpoints(order);
        destinations := Addresses(all);
        AddressesLive(endpoints.sets, all);
      }
    }
  }

  function Addresses(es: seq<Endpoint>): seq<Address> {
    seq(|es|, i requires 0 <= i < |es| => es[i].address)
  }

  lemma AddressesLive(sets: Sets, es: seq<Endpoint>)
    requires forall e :: e in es <==> Lives(sets, e)
    ensures forall a :: a in Addresses(es) <==> exists l :: l in sets && a in sets[l].endpoints
  {
    var r := Addresses(es);
    forall a | a in r ensures exists l :: l in sets && a in sets[l].endpoints {
      var i :| 0 <= i < |r| && r[i] == a;
      assert es[i] in es;
    }
    forall a, l | l in sets && a in sets[l].endpoints ensures a in r {
      var e := Endpoint(a, sets[l].endpoints[a]);
      assert Lives(sets, e);
      var i :| 0 <= i < |es| && es[i] == e;
      assert r[i] == a;
    }
  }

  datatype Packet = Packet(contents: seq<Byte>, metadata: map<string, MetadataValue>, destinations: seq<Address>)

  /** What one filter may do to a packet, and what it returns. */
  ghost predicate Ran(f: Filter, h: TokenHash, index: TokenMap, p: Packet, p': Packet, r: Option<FilterError>) {
    match f
    case Capture(key, s) =>
      && p'.destinations == p.destinations
      && r == (if |p.contents| >= s.size then None else Some(NoValueCaptured))
      && (r.Some? ==> p' == p.(metadata := p.metadata[key + "/is_present" := Bool(false)]))
      && (r.None? ==> exists captured ::
            && |captured| == s.size
            && p'.metadata == p.metadata[key + "/is_present" := Bool(true)][key := Bytes(captured)]
            && (if s.Prefix? then p.contents == captured + p.contents[s.size..]
                else p.contents == p.contents[..|p.contents| - s.size] + captured)
            && p'.contents == (if !s.remove then p.contents
                               else if s.Prefix? then p.contents[s.size..]
                               else p.contents[..|p.contents| - s.size]))
    case TokenRouter(key) =>
      && p'.contents == p.contents && p'.metadata == p.metadata
      && (key !in p.metadata ==> r == Some(NoTokenFound) && p' == p)
      && (key in p.metadata && !p.metadata[key].Bytes? ==> r == Some(NotBytes) && p' == p)
      && (key in p.metadata && p.metadata[key].Bytes? ==>
            && r == (if p'.destinations == [] then Some(NoEndpointMatch) else None)
            && p.destinations <= p'.destinations && NoDuplicates(p'.destinations[|p.destinations|..])
            && forall a :: a in p'.destinations[|p.destinations|..] <==>
               a in GetOr(index, h(p.metadata[key].bytes), {}))
  }

  // ---- End to end ----

  /** The chain the static provider installs. */
  function StaticChain(length: nat): seq<Filter> {
    [Capture(CAPTURED_BYTES, Suffix(length, true)), TokenRouter(CAPTURED_BYTES)]
  }

  lemma SuffixIsToken(payload: seq<Byte>, token: seq<Byte>, captured: seq<Byte>)
    requires |captured| == |token|
    requires payload + token == (payload + token)[..|payload + token| - |token|] + captured
    ensures captured == token && (payload + token)[..|payload + token| - |token|] == payload
  {
    assert captured == (payload + token)[|payload|..];
  }

  lemma OneElement(s: seq<Address>, a: Address)
    requires NoDuplicates(s) && forall b :: b in s <==> b == a
    ensures s == [a]
  {
    EmptySeq(s);
    assert a in s;
    TwoDiffer(s);
    assert s[0] in s;
  }

  lemma TwoDiffer(s: seq<Address>)
    requires NoDuplicates(s)
    ensures |s| >= 2 ==> exists b, c :: b in s && c in s && b != c
  {
    if |s| >= 2 {
      assert s[0] in s && s[1] in s;
    }
  }

  /**
   * What the static provider's chain does to a packet that ends in a token: the token is cut off,
   * and the packet goes exactly to the token's holders, or is dropped if there are none.
   */
  lemma StaticChainRoutes(h: TokenHash, c: Contents, index: TokenMap, length: nat, payload: seq<Byte>, token: Token,
                          p1: Packet, p2: Packet, r1: Option<FilterError>, r2: Option<FilterError>)
    requires |token| == length
    requires Indexes(index, GlobalPairs(h, c)) && InjectiveOn(h, TokensOf(c) + {token})
    requires Ran(StaticChain(length)[0], h, index, Packet(payload + token, map[], []), p1, r1)
    requires r1.None? ==> Ran(StaticChain(length)[1], h, index, p1, p2, r2)
    ensures r1 == None && p2.contents == payload
    ensures r2 == (if Holders(c, token) == {} then Some(NoEndpointMatch) else None)
    ensures NoDuplicates(p2.destinations) && forall a :: a in p2.destinations <==> a in Holders(c, token)
  {
    var p0 := Packet(payload + token, map[], []);
    var captured :| |captured| == length
      && p1.metadata == p0.metadata[CAPTURED_BYTES + "/is_present" := Bool(true)][CAPTURED_BYTES := Bytes(captured)]
      && p0.contents == p0.contents[..|p0.contents| - length] + captured
      && p1.contents == p0.contents[..|p0.contents| - length];
    SuffixIsToken(payload, token, captured);
    assert p1.metadata[CAPTURED_BYTES] == Bytes(token);
    LookupIsExact(h, c, index, token);
    assert p1.destinations == [];
    assert p2.destinations[|p1.destinations|..] == p2.destinations;
    EmptySeq(p2.destinations);
    assert forall a :: a in p2.destinations <==> a in Holders(c, token);
  }

  /** payload ++ token(i) leaves exactly `payload`, destined only to endpoint i / count. */
  lemma StaticTokenRouting(h: TokenHash, addresses: seq<Address>, count: nat, length: nat, l: Loc, index: TokenMap,
                           i: nat, payload: seq<Byte>, p1: Packet, p2: Packet,
                           r1: Option<FilterError>, r2: Option<FilterError>)
    requires NoDuplicates(addresses) && |addresses| * count <= Pow256(length) && count > 0 && i < |addresses| * count
    requires index == TokenMapOf(h, StaticEndpoints(addresses, count, length))
    requires InjectiveOn(h, TokensOf(map[l := StaticEndpoints(addresses, count, length)]))
    requires Ran(StaticChain(length)[0], h, index, Packet(payload + LeBytes(i, length), map[], []), p1, r1)
    requires r1.None? ==> Ran(StaticChain(length)[1], h, index, p1, p2, r2)
    ensures r1 == None && r2 == None
    ensures p2.contents == payload && i / count < |addresses| && p2.destinations == [addresses[i / count]]
  {
    hide Ran, Pairs, Indexes, StaticEndpoints, GlobalPairs, TokenMapOf, TokensOf, Holders, InjectiveOn, NoDuplicates;
    var c := map[l := StaticEndpoints(addresses, count, length)];
    var token := LeBytes(i, length);
    StaticHolder(addresses, count, length, i, l);
    OneLocality(h, l, StaticEndpoints(addresses, count, length));
    HeldToken(c, token, addresses[i / count]);
    assert TokensOf(c) + {token} == TokensOf(c);
    StaticChainRoutes(h, c, index, length, payload, token, p1, p2, r1, r2);
    OneElement(p2.destinations, addresses[i / count]);
  }

  lemma OneLocality(h: TokenHash, l: Loc, eps: EndpointMap)
    ensures Indexes(TokenMapOf(h, eps), GlobalPairs(h, map[l := eps]))
  {
    hide Pairs, Indexes;
    var c := map[l := eps];
    assert GlobalPairs(h, c) == Pairs(h, eps) by {
      forall x | x in Pairs(h, eps) ensures x in GlobalPairs(h, c) {
        assert l in c && x in Pairs(h, c[l]);
      }
    }
  }

  lemma HeldToken(c: Contents, t: Token, a: Address)
    requires a in Holders(c, t)
    ensures t in TokensOf(c)
  {
    var l :| l in c && a in c[l] && t in c[l][a].tokens;
  }

  /** The provider, the cluster map and the filter chain put together. */
  method RouteStatic(h: Hashing, addresses: seq<Address>, count: nat, length: nat, l: Loc, i: nat, payload: seq<Byte>)
      returns (ctx: ReadContext, r: Option<FilterError>)
    requires NoDuplicates(addresses) && Pow256(length) < 0x1_0000_0000_0000_0000
    requires |addresses| * count <= Pow256(length) && count > 0 && i < |addresses| * count
    requires InjectiveOn(h.token, TokensOf(map[l := StaticEndpoints(addresses, count, length)]))
    ensures r == None && ctx.contents == payload
    ensures i / count < |addresses| && ctx.destinations == [addresses[i / count]]
  {
    hide Ran, TokenMapOf, InjectiveOn, Reports, NoDuplicates, TokensOf, Listing, StaticEndpoints, Follows,
         IndexExact, Patched, Replaced, Total;
    var generated := GenerateEndpoints(addresses, count, length);
    var s := New(h, generated.value);
    var m := new ClusterMap(h);
    var accepted, _ := m.Apply(None, l, s);
    FirstPatch(s.tokenMap);
    assert m.tokenMap == s.tokenMap;
    ctx := new ReadContext(payload + LeBytes(i, length), m);
    OneKey(l, m.sets.Keys);
    ghost var trace;
    r, trace := ctx.ChainRead(StaticChain(length), [l]);
    var p1 := trace[1];
    var r1 := if |trace| == 2 then r else None;
    assert Ran(StaticChain(length)[0], h.token, m.tokenMap, trace[0], p1, r1);
    var p2 := if |trace| == 3 then trace[2] else p1;
    FirstPasses(h.token, length, payload, LeBytes(i, length), m.tokenMap, p1, r1);
    StaticTokenRouting(h.token, addresses, count, length, l, m.tokenMap, i, payload, p1, p2, r1, r);
  }

  lemma FirstPatch(now: TokenMap)
    ensures Patched(map[], map[], now) == now
  {}

  lemma OneKey(l: Loc, keys: set<Loc>)
    requires keys == {l}
    ensures Enumerates([l], keys)
  {}

  lemma FirstPasses(h: TokenHash, length: nat, payload: seq<Byte>, token: Token, index: TokenMap, p1: Packet,
                    r1: Option<FilterError>)
    requires |token| == length
    requires Ran(StaticChain(length)[0], h, index, Packet(payload + token, map[], []), p1, r1)
    ensures r1 == None
  {}
}
