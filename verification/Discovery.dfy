/**
 * Incremental discovery of clusters (src/config.rs, src/config/corro.rs, crates/xds/src/config.rs):
 * a server sends the localities whose version the client does not have; the client applies them
 * and acknowledges. The bridge also reports every applied change to the database.
 */
module Discovery {
  import opened Base
  import opened Endpoints
  import opened EndpointSets
  import opened Localities
  import opened TokenIndex
  import opened Clusters
  import Corrosion

  /** A discovery resource; the payload may be missing. */
  datatype XdsResource = XdsResource(name: string, version: U64, payload: Option<Resource>)

  type Versions = map<string, U64>

  /** The resource name of a locality; endpoints without one go by the empty name. */
  function Name(l: Loc): string {
    if l.None? then "" else l.value.buffer
  }

  /** The locality a name stands for; no result if it does not parse. */
  function Locates(name: string): Option<Loc> {
    if name == "" then Some(None) else if Parse(name).Some? then Some(Parse(name)) else None
  }

  function WireLoc(l: Loc): Loc
    requires l.Some? ==> WellFormed(l.value)
  {
    if l.None? then None else Some(Wire(l.value))
  }

  /** A client's localities and their owners. */
  type ClientState = (Sets, map<Loc, Owner>)

  // ---- The server's answer ----

  predicate UpToDate(sets: Sets, versions: Versions, l: Loc)
    requires l in sets
  {
    Get(versions, Name(l)) == Some(sets[l].hash)
  }

  /** Without a subscription everything is asked for, with one the localities that a subscribed name stands for. */
  predicate Asked(subscribed: set<string>, l: Loc) {
    subscribed == {} || exists name :: name in subscribed && StandsFor(name, l)
  }

  /** The empty name is the unlocated set's; any other name is that of the locality it parses to. */
  predicate StandsFor(name: string, l: Loc) {
    if l.None? then name == "" else Parse(name) == Some(l.value)
  }

  /** A locality is asked for by its own name, if it is the one its name parses to, and by no other name. */
  lemma AskedByName(subscribed: set<string>, l: Loc)
    requires subscribed != {}
    ensures Asked(subscribed, l) <==>
            if l.None? then "" in subscribed
            else l.value.buffer in subscribed && Parse(l.value.buffer) == Some(l.value)
  {
    hide Parse;
    if name :| name in subscribed && StandsFor(name, l) {
      assert l.Some? ==> name == l.value.buffer;
    }
    if l.Some? && l.value.buffer in subscribed && Parse(l.value.buffer) == Some(l.value) {
      assert StandsFor(l.value.buffer, l);
    }
    if l.None? && "" in subscribed {
      assert StandsFor("", l);
    }
  }

  lemma AskedByOwnName(subscribed: set<string>, l: Loc)
    requires subscribed != {} && (l.Some? ==> Parse(l.value.buffer) == l)
    ensures Asked(subscribed, l) <==> Name(l) in subscribed
  {
    hide Asked;
    AskedByName(subscribed, l);
  }

  lemma LocatesStands(name: string, l: Loc)
    ensures Locates(name) == Some(l) <==> StandsFor(name, l)
    ensures Locates(name).None? <==> name != "" && Parse(name).None?
  {
    hide Parse;
  }

  /** `locs` lists, once each, the localities asked for whose version the client lacks. */
  ghost predicate Missing(locs: seq<Loc>, sets: Sets, versions: Versions, subscribed: set<string>) {
    && NoDuplicates(locs)
    && forall l :: l in locs <==> Asked(subscribed, l) && l in sets && !UpToDate(sets, versions, l)
  }

  ghost predicate Answers(resources: seq<XdsResource>, locs: seq<Loc>, sets: Sets) {
    && |resources| == |locs|
    && forall i :: 0 <= i < |locs| ==>
         && locs[i] in sets
         && resources[i] == XdsResource(Name(locs[i]), sets[locs[i]].hash, Some(EncodedSpec(sets[locs[i]], locs[i]).0))
  }

  /** Only the memo of a set may differ. */
  ghost predicate SameButMemo(s: Sets, t: Sets) {
    s.Keys == t.Keys && forall l :: l in s ==> s[l].(cache := None) == t[l].(cache := None)
  }

  /** Everything, or the localities of the subscribed names that parse. */
  function Wanted(sets: Sets, subscribed: set<string>): set<Loc> {
    if subscribed == {} then sets.Keys else set n | n in subscribed && Locates(n).Some? :: Locates(n).value
  }

  lemma WantedAsked(sets: Sets, subscribed: set<string>, l: Loc)
    requires l in sets
    ensures l in Wanted(sets, subscribed) <==> Asked(subscribed, l)
  {
    hide Locates, StandsFor;
    forall name ensures Locates(name) == Some(l) <==> StandsFor(name, l) {
      LocatesStands(name, l);
    }
  }

  /** delta_discovery_request, cluster branch. */
  method DeltaDiscoveryRequest(m: ClusterMap, versions: Versions, subscribed: set<string>)
      returns (resources: seq<XdsResource>, removed: set<string>, ghost locs: seq<Loc>)
    modifies m`sets
    ensures Missing(locs, old(m.sets), versions, subscribed) && Answers(resources, locs, old(m.sets))
    ensures forall i :: 0 <= i < |locs| ==> resources[i].name == if locs[i].None? then "" else locs[i].value.buffer
    ensures subscribed != {} ==> forall l :: l in old(m.sets) && (l.Some? ==> Parse(l.value.buffer) == l) ==>
              (l in locs <==> Name(l) in subscribed && Get(versions, Name(l)) != Some(old(m.sets)[l].hash))
    ensures removed == if "" in versions && None !in old(m.sets) then {""} else {}
    ensures SameButMemo(m.sets, old(m.sets))
    ensures forall l :: l in m.sets ==>
              m.sets[l] == if l in locs then EncodedSpec(old(m.sets)[l], l).1 else old(m.sets)[l]
  {
    hide EncodedSpec, Wanted, Name, Asked;
    resources, locs := [], [];
    var wanted := Wanted(m.sets, subscribed);
    var todo := wanted;
    while todo != {}
      invariant todo <= wanted
      invariant Among(locs, old(m.sets), versions, wanted - todo) && Answers(resources, locs, old(m.sets))
      invariant SameButMemo(m.sets, old(m.sets))
      invariant forall l :: l in m.sets ==>
                  m.sets[l] == if l in locs then EncodedSpec(old(m.sets)[l], l).1 else old(m.sets)[l]
    {
      var l :| l in todo;
      if l in m.sets && Get(versions, Name(l)) != Some(m.sets[l].hash) {
        var r, s := EncodedCluster(m.h, m.sets[l], l);
        MemoOnly(m.sets[l], l);
        resources := resources + [XdsResource(Name(l), m.sets[l].hash, Some(r))];
        NoDuplicatesAppend(locs, l);
        locs := locs + [l];
        m.sets := m.sets[l := s];
      }
      todo := todo - {l};
    }
    assert wanted - {} == wanted;
    forall l | l in old(m.sets) ensures l in wanted <==> Asked(subscribed, l) {
      WantedAsked(old(m.sets), subscribed, l);
    }
    Named(resources, locs, old(m.sets));
    forall l | subscribed != {} && l in old(m.sets) && (l.Some? ==> Parse(l.value.buffer) == l)
      ensures Asked(subscribed, l) <==> Name(l) in subscribed {
      AskedByOwnName(subscribed, l);
    }
    removed := {};
    if "" in versions && None !in m.sets {
      removed := {""};
    }
  }

  ghost predicate Among(locs: seq<Loc>, sets: Sets, versions: Versions, wanted: set<Loc>) {
    && NoDuplicates(locs)
    && forall l :: l in locs <==> l in wanted && l in sets && !UpToDate(sets, versions, l)
  }

  lemma Named(resources: seq<XdsResource>, locs: seq<Loc>, sets: Sets)
    requires Answers(resources, locs, sets)
    ensures forall i :: 0 <= i < |locs| ==> resources[i].name == if locs[i].None? then "" else locs[i].value.buffer
  {
    hide EncodedSpec;
  }

  lemma MemoOnly(s: EndpointSet, l: Loc)
    ensures EncodedSpec(s, l).1.(cache := None) == s.(cache := None)
  {}

  // ---- The bridge ----

  /** What is written to the database, per contributing peer. */
  datatype Statement =
    | RemoveServer(peer: nat, gone: Address)
    | UpsertServer(peer: nat, server: Address, icao: string, tokens: set<Token>)
    | InsertDatacenter(peer: nat, icao: string)

  function Removals(peer: nat, gone: seq<Address>): seq<Statement> {
    seq(|gone|, i requires 0 <= i < |gone| => RemoveServer(peer, gone[i]))
  }

  function Upserts(peer: nat, icao: string, up: seq<(Address, set<Token>)>): seq<Statement> {
    seq(|up|, i requires 0 <= i < |up| => UpsertServer(peer, up[i].0, icao, up[i].1))
  }

  /** The database's view of one locality, statement by statement. */
  function Written(v: TokenView, statements: seq<Statement>): TokenView {
    if statements == [] then v
    else
      var w := Written(v, statements[..|statements| - 1]);
      match statements[|statements| - 1]
      case RemoveServer(_, a) => w - {a}
      case UpsertServer(_, a, _, ts) => w[a := ts]
      case InsertDatacenter(_, _) => w
  }

  /** The statement is the peer's, under its ICAO code, and tells something of a change from `was` to `now`. */
  ghost predicate Tells(s: Statement, peer: Owner, icao: Option<string>, was: TokenView, now: TokenView) {
    match s
    case RemoveServer(p, a) => Some(p) == peer && a in was && a !in now
    case UpsertServer(p, a, c, ts) => Some(p) == peer && Some(c) == icao && Get(now, a) == Some(ts)
    case InsertDatacenter(_, _) => false
  }

  lemma DeltaTells(d: Delta, peer: nat, icao: string, was: TokenView, now: TokenView)
    requires Reports(d, was, now)
    ensures forall s :: s in Removals(peer, d.removed) + Upserts(peer, icao, d.upserted) ==>
              Tells(s, Some(peer), Some(icao), was, now)
  {}

  lemma RemovalsTell(gone: seq<Address>, peer: nat, icao: Option<string>, was: TokenView)
    requires forall a :: a in gone ==> a in was
    ensures forall s :: s in Removals(peer, gone) ==> Tells(s, Some(peer), icao, was, map[])
  {}

  lemma {:induction false} WrittenRemovals(v: TokenView, peer: nat, gone: seq<Address>)
    ensures Written(v, Removals(peer, gone)) == RemoveAll(v, gone)
  {
    if gone == [] {
      assert Removals(peer, gone) == [];
      assert v - {} == v;
    } else {
      var n := |gone| - 1;
      WrittenRemovals(v, peer, gone[..n]);
      assert Removals(peer, gone)[..n] == Removals(peer, gone[..n]);
      assert gone == gone[..n] + [gone[n]];
      assert (set a | a in gone) == (set a | a in gone[..n]) + {gone[n]};
    }
  }

  lemma {:induction false} WrittenUpserts(v: TokenView, before: seq<Statement>, peer: nat, icao: string,
                                          up: seq<(Address, set<Token>)>)
    ensures Written(v, before + Upserts(peer, icao, up)) == UpsertAll(Written(v, before), up)
  {
    var all := before + Upserts(peer, icao, up);
    if up == [] {
      assert all == before;
    } else {
      var n := |up| - 1;
      WrittenUpserts(v, before, peer, icao, up[..n]);
      assert all[..|all| - 1] == before + Upserts(peer, icao, up[..n]);
    }
  }

  /** The statements for a delta replay it. */
  lemma StatementsReplay(v: TokenView, peer: nat, icao: string, d: Delta)
    ensures Written(v, Removals(peer, d.removed) + Upserts(peer, icao, d.upserted)) == Replay(v, d)
  {
    WrittenUpserts(v, Removals(peer, d.removed), peer, icao, d.upserted);
    WrittenRemovals(v, peer, d.removed);
  }

  /** The statements for a delta, if the peer and its ICAO code are known and there is a database. */
  function StatementsFor(remote: Owner, icao: Option<string>, hasDatabase: bool, d: Delta): seq<Statement> {
    if remote.Some? && icao.Some? && hasDatabase
    then Removals(remote.value, d.removed) + Upserts(remote.value, icao.value, d.upserted)
    else []
  }

  /**
   * The database follows a change exactly when the peer and its ICAO code are known and there is
   * a database, or nothing changed.
   */
  lemma DatabaseFollows(d: Delta, was: TokenView, now: TokenView, remote: Owner, icao: Option<string>,
                        hasDatabase: bool)
    requires Reports(d, was, now)
    ensures Written(was, StatementsFor(remote, icao, hasDatabase, d)) == now <==>
            (remote.Some? && icao.Some? && hasDatabase) || was == now
  {
    hide Reports;
    if remote.Some? && icao.Some? {
      StatementsReplay(was, remote.value, icao.value, d);
    }
    ReplayReaches(d, was, now);
  }

  /**
   * A new server of a peer whose datacenter is not known yet is not written by the call that
   * applies it; it is written, if at all, when the datacenter arrives.
   */
  lemma UnknownIcaoDefersServer(peer: nat, a: Address, tokens: set<Token>)
    ensures var d := Delta([], [(a, tokens)]);
            && Reports(d, map[], map[a := tokens])
            && Written(map[], StatementsFor(Some(peer), None, true, d)) == map[]
  {}

  /** Every server of a set with its tokens, in address order. */
  ghost function ServersOf(eps: EndpointMap): seq<(Address, set<Token>)> {
    var keys := Ordered(eps.Keys);
    seq(|keys|, i requires 0 <= i < |keys| => (keys[i], if keys[i] in eps then eps[keys[i]].tokens else {}))
  }

  /** What is written when a peer's datacenter arrives. */
  ghost function CatchUp(peer: nat, icao: string, eps: EndpointMap): seq<Statement> {
    [InsertDatacenter(peer, icao)] + Upserts(peer, icao, ServersOf(eps))
  }

  /**
   * The catch-up adds the locality's servers and takes none away: the database then holds the
   * locality exactly when it held no server that is gone.
   */
  lemma CatchUpFollows(v: TokenView, peer: nat, icao: string, eps: EndpointMap)
    ensures Written(v, CatchUp(peer, icao, eps)) == v + View(eps)
    ensures Written(v, CatchUp(peer, icao, eps)) == View(eps) <==> v.Keys <= eps.Keys
  {
    hide ServersOf, View, Upserts;
    var dc := [InsertDatacenter(peer, icao)];
    assert dc[..0] == [] && Written(v, dc) == v;
    WrittenUpserts(v, dc, peer, icao, ServersOf(eps));
    ServersUpserted(v, eps);
    Overlay(v, eps);
  }

  lemma Overlay(v: TokenView, eps: EndpointMap)
    ensures v + View(eps) == View(eps) <==> v.Keys <= eps.Keys
  {
    assert View(eps).Keys == eps.Keys;
    assert (v + View(eps)).Keys == v.Keys + eps.Keys;
    if v.Keys <= eps.Keys {
      assert v + View(eps) == View(eps);
    }
  }

  lemma ServersUpserted(v: TokenView, eps: EndpointMap)
    ensures UpsertAll(v, ServersOf(eps)) == v + View(eps)
  {
    hide ServersOf, UpsertAll;
    var up := ServersOf(eps);
    forall a ensures Get(UpsertAll(v, up), a) == Get(v + View(eps), a) {
      UpsertAllAt(v, up, a);
      ListedServers(eps);
      if a in eps {
        ListedOnce(eps, a);
      }
    }
    SameLookups(UpsertAll(v, up), v + View(eps));
  }

  lemma ListedServers(eps: EndpointMap)
    ensures forall x :: x in ServersOf(eps) ==> x.0 in eps && x.1 == eps[x.0].tokens
  {
    hide Leq;
  }

  lemma ListedOnce(eps: EndpointMap, a: Address)
    requires a in eps
    ensures (a, eps[a].tokens) in ServersOf(eps)
  {
    hide Leq;
    var keys := Ordered(eps.Keys);
    var i :| 0 <= i < |keys| && keys[i] == a;
    assert ServersOf(eps)[i] == (a, eps[a].tokens);
  }

  /** Removing every server of a locality leaves the database without it. */
  lemma RemovedFromDatabase(eps: EndpointMap, peer: nat)
    ensures Written(View(eps), Removals(peer, Ordered(eps.Keys))) == map[]
  {
    hide Ordered;
    WrittenRemovals(View(eps), peer, Ordered(eps.Keys));
  }

  lemma ListedAddresses(eps: EndpointMap)
    ensures |Listed(eps)| == |Ordered(eps.Keys)|
    ensures forall i :: 0 <= i < |Listed(eps)| ==> Listed(eps)[i].address == Ordered(eps.Keys)[i]
  {
    hide Ordered;
    KeysListed(eps, Ordered(eps.Keys));
  }

  lemma ListedEndpoints(eps: EndpointMap)
    ensures |Listed(eps)| == |ServersOf(eps)|
    ensures forall i :: 0 <= i < |Listed(eps)| ==>
              Listed(eps)[i].address == ServersOf(eps)[i].0 && Listed(eps)[i].metadata.tokens == ServersOf(eps)[i].1
  {
    hide Ordered;
    KeysListed(eps, Ordered(eps.Keys));
  }

  lemma ServersTold(peer: nat, icao: string, eps: EndpointMap)
    ensures forall s :: s in Upserts(peer, icao, ServersOf(eps)) ==>
              Tells(s, Some(peer), Some(icao), map[], View(eps))
  {
    hide ServersOf;
    ListedServers(eps);
  }

  class Bridge {
    /** Both the datacenter map and the cluster map are configured. */
    const configured: bool
    const hasDatabase: bool
    const m: ClusterMap
    var statements: seq<Statement>

    constructor (configured: bool, hasDatabase: bool, m: ClusterMap)
      ensures this.configured == configured && this.hasDatabase == hasDatabase && this.m == m && statements == []
    {
      this.configured, this.hasDatabase, this.m, statements := configured, hasDatabase, m, [];
    }

    /** One removal per server, in address order. */
    method WriteRemovals(peer: nat, eps: EndpointMap)
      modifies this`statements
      ensures statements == old(statements) + Removals(peer, Ordered(eps.Keys))
    {
      hide Ordered, Listed, Lists, Leq;
      var order := InOrder(eps);
      ListedAddresses(eps);
      ghost var gone := Ordered(eps.Keys);
      for i := 0 to |order|
        invariant statements == old(statements) + Removals(peer, gone[..i])
      {
        statements := statements + [RemoveServer(peer, order[i].address)];
        assert Removals(peer, gone[..i + 1]) == Removals(peer, gone[..i]) + [RemoveServer(peer, gone[i])];
      }
      assert gone[..|gone|] == gone;
    }

    /** One upsert per server, in address order. */
    method WriteServers(peer: nat, icao: string, eps: EndpointMap)
      modifies this`statements
      ensures statements == old(statements) + Upserts(peer, icao, ServersOf(eps))
    {
      hide Ordered, Listed, Lists, Leq, ServersOf;
      var order := InOrder(eps);
      ListedEndpoints(eps);
      ghost var up := ServersOf(eps);
      for i := 0 to |order|
        invariant statements == old(statements) + Upserts(peer, icao, up[..i])
      {
        statements := statements + [UpsertServer(peer, order[i].address, icao, order[i].metadata.tokens)];
        assert Upserts(peer, icao, up[..i + 1]) ==
               Upserts(peer, icao, up[..i]) + [UpsertServer(peer, up[i].0, icao, up[i].1)];
      }
      assert up[..|up|] == up;
    }

    /**
     * A peer's datacenter arrives: it is written together with the servers of one of the peer's
     * localities, or not at all if the peer has none with a set.
     */
    method InsertDc(ip: nat, icao: string) returns (ghost found: Option<Loc>)
      modifies this`statements
      ensures found.Some? <==> exists l :: l in m.owners && l.Some? && m.owners[l] == Some(ip)
      ensures found.Some? ==> found.value.Some? && Get(m.owners, found.value) == Some(Some(ip))
      ensures statements == old(statements) +
                if configured && hasDatabase && found.Some? && found.value in m.sets
                then CatchUp(ip, icao, m.sets[found.value].endpoints)
                else []
      ensures configured && hasDatabase && found.Some? && found.value in m.sets ==>
                && statements[|old(statements)|] == InsertDatacenter(ip, icao)
                && forall s :: s in statements[|old(statements)| + 1..] ==>
                     Tells(s, Some(ip), Some(icao), map[], View(m.sets[found.value].endpoints))
    {
      hide Ordered, ServersOf, Upserts, Tells;
      var candidates := set l | l in m.owners && l.Some? && m.owners[l] == Some(ip);
      if candidates == {} {
        assert forall l :: l in m.owners && l.Some? && m.owners[l] == Some(ip) ==> l in candidates;
        return None;
      }
      var l :| l in candidates;
      found := Some(l);
      if !configured || !hasDatabase || l !in m.sets {
        return;
      }
      statements := statements + [InsertDatacenter(ip, icao)];
      WriteServers(ip, icao, m.sets[l].endpoints);
      ServersTold(ip, icao, m.sets[l].endpoints);
      assert statements[|old(statements)| + 1..] == Upserts(ip, icao, ServersOf(m.sets[l].endpoints));
    }

    /** Removes a locality and, where it can, every server it had from the database. */
    method RemoveLocality(remote: Owner, l: Loc) returns (ghost gone: seq<Address>)
      requires m.Valid()
      modifies this, m`sets, m`owners, m`numEndpoints, m`version, m`ops
      ensures m.Valid()
      ensures (m.sets, m.owners) ==
              if configured then Removed(old(m.sets), old(m.owners), remote, l) else (old(m.sets), old(m.owners))
      ensures gone == Ordered(EndpointsAt(old(m.sets), l).Keys)
      ensures statements == old(statements) +
                if configured && Allowed(old(m.owners), remote, l) && hasDatabase && remote.Some?
                then Removals(remote.value, gone)
                else []
      ensures forall s :: s in statements[|old(statements)|..] ==>
                Tells(s, remote, None, ViewAt(old(m.sets), l), map[])
    {
      hide Ordered, Leq, Follows, Total, Tells;
      gone := Ordered(EndpointsAt(m.sets, l).Keys);
      if !configured {
        return;
      }
      var es := m.RemoveLocality(remote, l);
      if es.None? || !hasDatabase || remote.None? {
        return;
      }
      RemovalsTell(gone, remote.value, None, ViewAt(old(m.sets), l));
      WriteRemovals(remote.value, es.value.endpoints);
    }

    method WriteDelta(peer: nat, icao: string, d: Delta)
      modifies this`statements
      ensures statements == old(statements) + (Removals(peer, d.removed) + Upserts(peer, icao, d.upserted))
    {
      for i := 0 to |d.removed|
        invariant statements == old(statements) + Removals(peer, d.removed[..i])
      {
        statements := statements + [RemoveServer(peer, d.removed[i])];
        assert Removals(peer, d.removed[..i + 1]) ==
          Removals(peer, d.removed[..i]) + [RemoveServer(peer, d.removed[i])];
      }
      assert d.removed[..|d.removed|] == d.removed;
      ghost var before := statements;
      for i := 0 to |d.upserted|
        invariant statements == before + Upserts(peer, icao, d.upserted[..i])
      {
        statements := statements + [UpsertServer(peer, d.upserted[i].0, icao, d.upserted[i].1)];
        assert Upserts(peer, icao, d.upserted[..i + 1]) ==
               Upserts(peer, icao, d.upserted[..i]) + [UpsertServer(peer, d.upserted[i].0, icao, d.upserted[i].1)];
      }
      assert d.upserted[..|d.upserted|] == d.upserted;
    }

    /**
     * Applies one locality and, where it can, writes the reported delta to the database, which
     * then follows the locality exactly when peer, ICAO code and database are there or nothing changed.
     */
    method ApplyChanges(remote: Owner, l: Loc, icao: Option<string>, es: EndpointSet) returns (ghost d: Delta)
      requires m.Valid()
      modifies this, m
      ensures m.Valid()
      ensures (m.sets, m.owners) ==
              if configured
              then Applied(m.h, old(m.sets), old(m.owners), remote, l, es)
              else (old(m.sets), old(m.owners))
      ensures configured && Allowed(old(m.owners), remote, l) ==> Reports(d, ViewAt(old(m.sets), l), View(es.endpoints))
      ensures statements == old(statements) +
                if configured && Allowed(old(m.owners), remote, l)
                then StatementsFor(remote, icao, hasDatabase, d)
                else []
      ensures old(statements) <= statements
      ensures forall s :: s in statements[|old(statements)|..] ==>
                Tells(s, remote, icao, ViewAt(old(m.sets), l), View(es.endpoints))
      ensures configured && Allowed(old(m.owners), remote, l) ==>
                (Written(ViewAt(old(m.sets), l), statements[|old(statements)|..]) == View(es.endpoints) <==>
                   (remote.Some? && icao.Some? && hasDatabase) || ViewAt(old(m.sets), l) == View(es.endpoints))
    {
      hide Reports, View, ViewAt, Replaced, Written, Follows, Total, IndexExact, Patched, Removals, Upserts, Tells;
      d := Delta([], []);
      if !configured {
        return;
      }
      var accepted, delta := m.Apply(remote, l, es);
      d := delta;
      if accepted {
        DatabaseFollows(d, ViewAt(old(m.sets), l), View(es.endpoints), remote, icao, hasDatabase);
        if remote.Some? && hasDatabase && icao.Some? {
          DeltaTells(d, remote.value, icao.value, ViewAt(old(m.sets), l), View(es.endpoints));
          WriteDelta(remote.value, icao.value, delta);
        }
      }
    }
  }

  predicate Allowed(owners: map<Loc, Owner>, remote: Owner, l: Loc) {
    l !in owners || owners[l] == remote
  }

  ghost function Removed(sets: Sets, owners: map<Loc, Owner>, remote: Owner, l: Loc): ClientState {
    if Allowed(owners, remote, l) then (sets - {l}, owners - {l}) else (sets, owners)
  }

  ghost function Applied(h: Hashing, sets: Sets, owners: map<Loc, Owner>, remote: Owner, l: Loc,
                         es: EndpointSet): ClientState {
    if Allowed(owners, remote, l)
    then (sets[l := if l in sets then Replaced(h, sets[l], es) else es], owners[l := remote])
    else (sets, owners)
  }

  // ---- The client's side ----

  /** What one received resource does; the supplied version is trusted. */
  ghost function Received(h: Hashing, st: ClientState, remote: Owner, r: XdsResource): ClientState
    requires Decodable(r)
  {
    var es := Fresh(h, r.payload.value.endpoints).(hash := r.version);
    Applied(h, st.0, st.1, remote, WireLoc(r.payload.value.locality), es)
  }

  predicate Decodable(r: XdsResource) {
    r.payload.Some? && (r.payload.value.locality.Some? ==> WellFormed(r.payload.value.locality.value))
  }

  ghost function ReceivedAll(h: Hashing, st: ClientState, remote: Owner, rs: seq<XdsResource>): ClientState
    requires forall i :: 0 <= i < |rs| ==> Decodable(rs[i])
  {
    if rs == [] then st else Received(h, ReceivedAll(h, st, remote, rs[..|rs| - 1]), remote, rs[|rs| - 1])
  }

  /** The one removal a server ever announces is of the endpoints without a locality. */
  ghost function RemovedAll(st: ClientState, remote: Owner, removed: set<string>): ClientState {
    if "" in removed then Removed(st.0, st.1, remote, None) else st
  }

  ghost function RemovedEach(st: ClientState, remote: Owner, names: seq<string>): ClientState
    requires forall i :: 0 <= i < |names| ==> Locates(names[i]).Some?
  {
    if names == [] then st
    else
      var before := RemovedEach(st, remote, names[..|names| - 1]);
      Removed(before.0, before.1, remote, Locates(names[|names| - 1]).value)
  }

  /** Exactly the localities that some name stands for go, where the remote may remove them. */
  ghost predicate NamedGone(names: seq<string>, remote: Owner, st: ClientState, st': ClientState) {
    forall l :: NamedGoneAt(names, remote, st, st', l)
  }

  ghost predicate NamedGoneAt(names: seq<string>, remote: Owner, st: ClientState, st': ClientState, l: Loc) {
    var goes := (l in st.1 ==> st.1[l] == remote) && exists i :: 0 <= i < |names| && StandsFor(names[i], l);
    && Get(st'.0, l) == (if goes then None else Get(st.0, l))
    && Get(st'.1, l) == (if goes then None else Get(st.1, l))
  }

  lemma {:induction false} RemovedByName(st: ClientState, remote: Owner, names: seq<string>)
    requires forall i :: 0 <= i < |names| ==> Locates(names[i]).Some?
    ensures NamedGone(names, remote, st, RemovedEach(st, remote, names))
  {
    hide StandsFor, Locates;
    if names != [] {
      var n := |names| - 1;
      RemovedByName(st, remote, names[..n]);
      forall l ensures NamedGoneAt(names, remote, st, RemovedEach(st, remote, names), l) {
        assert NamedGoneAt(names[..n], remote, st, RemovedEach(st, remote, names[..n]), l);
        LocatesStands(names[n], l);
        assert forall i :: 0 <= i < n ==> names[..n][i] == names[i];
      }
    }
  }

  /** The removals a server announces are parsed and carried out as meant. */
  lemma AnnouncedRemovals(st: ClientState, remote: Owner, removed: set<string>)
    requires removed == {} || removed == {""}
    ensures RemovedEach(st, remote, if removed == {} then [] else [""]) == RemovedAll(st, remote, removed)
  {
    assert [""][..0] == [];
  }

  /** The removals of a delta, up to the first name that does not parse. */
  method DropNames(b: Bridge, remote: Owner, removed: seq<string>) returns (ok: bool, ghost dropped: nat)
    requires b.m.Valid()
    modifies b, b.m`sets, b.m`owners, b.m`numEndpoints, b.m`version, b.m`ops
    ensures b.m.Valid()
    ensures dropped <= |removed| && forall i :: 0 <= i < dropped ==> Locates(removed[i]).Some?
    ensures ok <==> forall i :: 0 <= i < |removed| ==> removed[i] == "" || Parse(removed[i]).Some?
    ensures if ok then dropped == |removed| else dropped < |removed| && Locates(removed[dropped]).None?
    ensures b.configured ==>
              NamedGone(removed[..dropped], remote, (old(b.m.sets), old(b.m.owners)), (b.m.sets, b.m.owners))
    ensures (b.m.sets, b.m.owners) ==
            if b.configured then RemovedEach((old(b.m.sets), old(b.m.owners)), remote, removed[..dropped])
            else (old(b.m.sets), old(b.m.owners))
  {
    hide Removed, Locates, Ordered, Parse, NamedGone, StandsFor;
    dropped := 0;
    for i := 0 to |removed|
      invariant dropped == i && b.m.Valid()
      invariant forall j :: 0 <= j < i ==> Locates(removed[j]).Some?
      invariant forall j :: 0 <= j < i ==> removed[j] == "" || Parse(removed[j]).Some?
      invariant (b.m.sets, b.m.owners) ==
                if b.configured then RemovedEach((old(b.m.sets), old(b.m.owners)), remote, removed[..i])
                else (old(b.m.sets), old(b.m.owners))
    {
      var locality := Locates(removed[i]);
      LocatesStands(removed[i], None);
      if locality.None? {
        RemovedByName((old(b.m.sets), old(b.m.owners)), remote, removed[..dropped]);
        return false, dropped;
      }
      assert removed[..i + 1][..i] == removed[..i];
      var _ := b.RemoveLocality(remote, locality.value);
      dropped := dropped + 1;
    }
    RemovedByName((old(b.m.sets), old(b.m.owners)), remote, removed[..dropped]);
    ok := true;
  }

  /** The resource is for locality `l`, as a client reads it off the wire. */
  predicate IsFor(r: XdsResource, l: Loc) {
    && r.payload.Some?
    && match r.payload.value.locality
       case None => l.None?
       case Some(w) =>
         && WellFormed(w)
         && var p := ToProto(w); l == Some(Make(p.region, p.zone, p.subZone))
  }

  ghost predicate LastIsFor(rs: seq<XdsResource>, l: Loc, r: XdsResource) {
    exists i :: LastIsAt(rs, l, i) && rs[i] == r
  }

  ghost predicate LastIsAt(rs: seq<XdsResource>, l: Loc, i: int) {
    0 <= i < |rs| && IsFor(rs[i], l) && forall j :: i < j < |rs| ==> !IsFor(rs[j], l)
  }

  ghost predicate NoneIsFor(rs: seq<XdsResource>, l: Loc) {
    forall i :: 0 <= i < |rs| ==> !IsFor(rs[i], l)
  }

  /** A locality's set and owner. */
  datatype Place = Place(held: Option<EndpointSet>, owner: Option<Owner>)

  ghost function At(st: ClientState, l: Loc): Place {
    Place(Get(st.0, l), Get(st.1, l))
  }

  predicate Claimed(p: Place, remote: Owner) {
    p.owner.Some? && p.owner.value != remote
  }

  /** The resource's endpoints, under its version, are the remote's. */
  predicate Holds(p: Place, remote: Owner, r: XdsResource) {
    && p.owner == Some(remote) && p.held.Some? && r.payload.Some?
    && p.held.value.endpoints == r.payload.value.endpoints
    && (r.version != 0 ==> p.held.value.hash == r.version)
  }

  /** The last resource for a locality decides it, unless another remote has claimed it. */
  ghost predicate TakenAt(rs: seq<XdsResource>, remote: Owner, was: Place, now: Place, l: Loc) {
    && (Claimed(was, remote) || NoneIsFor(rs, l) ==> now == was)
    && (!Claimed(was, remote) ==> forall r :: LastIsFor(rs, l, r) ==> Holds(now, remote, r))
  }

  ghost predicate LastTaken(rs: seq<XdsResource>, remote: Owner, st: ClientState, st': ClientState) {
    forall l :: TakenAt(rs, remote, At(st, l), At(st', l), l)
  }

  lemma {:induction false} ReceivedLast(h: Hashing, st: ClientState, remote: Owner, rs: seq<XdsResource>)
    requires forall i :: 0 <= i < |rs| ==> Decodable(rs[i])
    ensures LastTaken(rs, remote, st, ReceivedAll(h, st, remote, rs))
  {
    hide IsFor, Received, Decodable, TakenAt, At;
    if rs == [] {
      forall l ensures TakenAt(rs, remote, At(st, l), At(st, l), l) {
        NothingTaken(remote, At(st, l), l);
      }
    } else {
      var n := |rs| - 1;
      ReceivedLast(h, st, remote, rs[..n]);
      var mid := ReceivedAll(h, st, remote, rs[..n]);
      var st' := ReceivedAll(h, st, remote, rs);
      forall l ensures TakenAt(rs, remote, At(st, l), At(st', l), l) {
        assert TakenAt(rs[..n], remote, At(st, l), At(mid, l), l);
        ReceivedHere(h, mid, remote, rs[n], l);
        TakeOneMore(rs, n, remote, At(st, l), At(mid, l), At(st', l), l);
      }
    }
  }

  lemma NothingTaken(remote: Owner, was: Place, l: Loc)
    ensures TakenAt([], remote, was, was, l)
  {}

  lemma ReceivedHere(h: Hashing, st: ClientState, remote: Owner, r: XdsResource, l: Loc)
    requires Decodable(r)
    ensures var was, now := At(st, l), At(Received(h, st, remote, r), l);
            if Claimed(was, remote) || !IsFor(r, l) then now == was else Holds(now, remote, r)
  {
    hide TokenMapOf, View;
  }

  lemma LastIsForLast(rs: seq<XdsResource>, n: nat, l: Loc, r: XdsResource)
    requires |rs| == n + 1
    ensures NoneIsFor(rs, l) <==> NoneIsFor(rs[..n], l) && !IsFor(rs[n], l)
    ensures LastIsFor(rs, l, r) <==> if IsFor(rs[n], l) then r == rs[n] else LastIsFor(rs[..n], l, r)
  {
    hide IsFor;
    var before := rs[..n];
    assert forall i :: 0 <= i < n ==> before[i] == rs[i];
    if IsFor(rs[n], l) {
      assert LastIsAt(rs, l, n);
    } else {
      assert forall i :: LastIsAt(rs, l, i) <==> LastIsAt(before, l, i);
    }
  }

  lemma TakeOneMore(rs: seq<XdsResource>, n: nat, remote: Owner, was: Place, mid: Place, now: Place, l: Loc)
    requires |rs| == n + 1 && TakenAt(rs[..n], remote, was, mid, l)
    requires if Claimed(mid, remote) || !IsFor(rs[n], l) then now == mid else Holds(now, remote, rs[n])
    ensures TakenAt(rs, remote, was, now, l)
  {
    hide IsFor, NoneIsFor, LastIsFor;
    LastIsForLast(rs, n, l, rs[n]);
    forall r
      ensures LastIsFor(rs, l, r) <==> if IsFor(rs[n], l) then r == rs[n] else LastIsFor(rs[..n], l, r) {
      LastIsForLast(rs, n, l, r);
    }
    if !Claimed(was, remote) && !NoneIsFor(rs[..n], l) {
      var r := LastResource(rs[..n], l);
    }
  }

  lemma {:induction false} LastResource(rs: seq<XdsResource>, l: Loc) returns (r: XdsResource)
    requires !NoneIsFor(rs, l)
    ensures LastIsFor(rs, l, r)
  {
    hide IsFor, LastIsFor;
    var n := |rs| - 1;
    r := rs[n];
    LastIsForLast(rs, n, l, r);
    if !IsFor(r, l) {
      r := LastResource(rs[..n], l);
      LastIsForLast(rs, n, l, r);
    }
  }

  /** The resources of a delta, up to the first that cannot be decoded. */
  method TakeResources(b: Bridge, remote: Owner, icao: Option<string>, resources: seq<XdsResource>)
      returns (ok: bool, ghost applied: nat)
    requires b.m.Valid()
    requires forall r :: r in resources && r.payload.Some? && r.payload.value.locality.Some? ==>
             WellFormed(r.payload.value.locality.value)
    modifies b, b.m
    ensures b.m.Valid()
    ensures applied <= |resources| && forall i :: 0 <= i < applied ==> Decodable(resources[i])
    ensures if ok then applied == |resources| else applied < |resources| && resources[applied].payload.None?
    ensures b.configured ==>
              LastTaken(resources[..applied], remote, (old(b.m.sets), old(b.m.owners)), (b.m.sets, b.m.owners))
    ensures (b.m.sets, b.m.owners) ==
            if b.configured then ReceivedAll(b.m.h, (old(b.m.sets), old(b.m.owners)), remote, resources[..applied])
            else (old(b.m.sets), old(b.m.owners))
  {
    hide Applied, TokenMapOf, View, LastTaken;
    applied := 0;
    for i := 0 to |resources|
      invariant applied == i && b.m.Valid()
      invariant forall j :: 0 <= j < i ==> Decodable(resources[j])
      invariant (b.m.sets, b.m.owners) ==
                if b.configured then ReceivedAll(b.m.h, (old(b.m.sets), old(b.m.owners)), remote, resources[..i])
                else (old(b.m.sets), old(b.m.owners))
    {
      var r := resources[i];
      if r.payload.None? {
        ReceivedLast(b.m.h, (old(b.m.sets), old(b.m.owners)), remote, resources[..applied]);
        return false, applied;
      }
      assert r in resources;
      assert resources[..i + 1][..i] == resources[..i];
      var es := WithVersion(b.m.h, r.payload.value.endpoints, r.version);
      var _ := b.ApplyChanges(remote, WireLoc(r.payload.value.locality), icao, es);
      applied := applied + 1;
    }
    ReceivedLast(b.m.h, (old(b.m.sets), old(b.m.owners)), remote, resources[..applied]);
    ok := true;
  }

  /**
   * apply_delta, cluster branch; nothing without a cluster map. Removals come first; the first
   * failure ends it, and what came before is kept.
   */
  method ApplyDelta(b: Bridge, hasClusters: bool, remote: Owner, icao: Option<string>, resources: seq<XdsResource>,
                    removed: seq<string>)
      returns (ok: bool, ghost dropped: nat, ghost applied: nat)
    requires b.m.Valid() && (b.configured ==> hasClusters)
    requires forall r :: r in resources && r.payload.Some? && r.payload.value.locality.Some? ==>
             WellFormed(r.payload.value.locality.value)
    modifies b, b.m
    ensures b.m.Valid()
    ensures dropped <= |removed| && forall i :: 0 <= i < dropped ==> Locates(removed[i]).Some?
    ensures applied <= |resources| && forall i :: 0 <= i < applied ==> Decodable(resources[i])
    ensures !hasClusters ==> ok && dropped == applied == 0
    ensures hasClusters ==> (ok <==> dropped == |removed| && applied == |resources|)
    ensures hasClusters ==> (ok <==>
              && (forall i :: 0 <= i < |removed| ==> removed[i] == "" || Parse(removed[i]).Some?)
              && (forall i :: 0 <= i < |resources| ==> resources[i].payload.Some?))
    ensures b.configured ==> exists mid ::
              && NamedGone(removed[..dropped], remote, (old(b.m.sets), old(b.m.owners)), mid)
              && LastTaken(resources[..applied], remote, mid, (b.m.sets, b.m.owners))
    ensures hasClusters && dropped < |removed| ==> Locates(removed[dropped]).None? && applied == 0
    ensures hasClusters && dropped == |removed| && applied < |resources| ==> resources[applied].payload.None?
    ensures (b.m.sets, b.m.owners) ==
            if b.configured
            then ReceivedAll(b.m.h, RemovedEach((old(b.m.sets), old(b.m.owners)), remote, removed[..dropped]),
              remote, resources[..applied])
            else (old(b.m.sets), old(b.m.owners))
  {
    hide RemovedEach, Received, Locates, Parse, NamedGone, LastTaken;
    dropped, applied := 0, 0;
    if !hasClusters {
      return true, dropped, applied;
    }
    ok, dropped := DropNames(b, remote, removed);
    ghost var mid := (b.m.sets, b.m.owners);
    NothingLast(remote, mid);
    if ok {
      ok, applied := TakeResources(b, remote, icao, resources);
    }
  }

  lemma NothingLast(remote: Owner, st: ClientState)
    ensures LastTaken([], remote, st, st)
  {
    forall l ensures TakenAt([], remote, At(st, l), At(st, l), l) {
      NothingTaken(remote, At(st, l), l);
    }
  }

  // ---- Convergence ----

  predicate Survives(l: Loc) {
    l.Some? ==> WellFormed(l.value) && !Dangling(l.value)
  }

  /** Localities that survive the wire and have names of their own; None is always among them. */
  ghost predicate Sound(locs: set<Loc>) {
    && None in locs
    && (forall l :: l in locs ==> Survives(l))
    && (forall l, m :: l in locs && m in locs && Name(l) == Name(m) ==> l == m)
  }

  /** Names that parse back to their locality, and leave nothing dangling, are enough. */
  lemma ParsedIsSound(locs: set<Loc>)
    requires None in locs
    requires forall l :: l in locs && l.Some? ==> Parse(l.value.buffer) == Some(l.value) && !Dangling(l.value)
    ensures Sound(locs)
  {
    hide Parse, Dangling;
    forall l, m | l in locs && m in locs && Name(l) == Name(m) ensures l == m {
      assert l.Some? ==> Parse(Name(l)) == Some(l.value);
      assert m.Some? ==> Parse(Name(m)) == Some(m.value);
      ParsesSomething(Name(l));
    }
  }

  lemma ParsesSomething(name: string)
    ensures Parse("") == None && (Parse(name).Some? ==> name != "")
  {}

  /** What the server believes the client has, the client has. */
  ghost predicate Believed(h: Hashing, locs: set<Loc>, versions: Versions, c: Sets) {
    forall l :: l in locs && Name(l) in versions ==> l in c && c[l].hash == versions[Name(l)] && HashTrue(h, c[l])
  }

  /** No locality belongs to another server. */
  ghost predicate Unclaimed(locs: set<Loc>, owners: map<Loc, Owner>, remote: Owner) {
    forall l :: l in locs ==> Allowed(owners, remote, l)
  }

  ghost predicate ServerTrue(h: Hashing, s: Sets) {
    forall l :: l in s ==> HashTrue(h, s[l]) && CacheTrue(h, s[l])
  }

  /** The copy a client made of a server's set. */
  ghost predicate Copied(h: Hashing, copy: EndpointSet, of: EndpointSet, l: Loc) {
    && View(copy.endpoints) == View(EncodedSpec(of, l).0.endpoints)
    && (HashTrue(h, of) && CacheTrue(h, of) ==> copy.hash == of.hash && HashTrue(h, copy))
  }

  lemma ReceiveOne(h: Hashing, st: ClientState, remote: Owner, r: XdsResource, of: EndpointSet, l: Loc)
    requires r == XdsResource(Name(l), of.hash, Some(EncodedSpec(of, l).0))
    requires Survives(l)
    requires Allowed(st.1, remote, l)
    ensures Decodable(r)
    ensures var st' := Received(h, st, remote, r);
            && l in st'.0 && Copied(h, st'.0[l], of, l)
            && st'.0 == st.0[l := st'.0[l]] && st'.1 == st.1[l := remote]
  {
    hide View, TokenMapOf;
    if l.Some? { WireRoundTrip(l.value); }
    assert r.payload.value.locality == l && WireLoc(l) == l;
  }

  /** `locs` were copied from the server and are now its; everything else is as it was. */
  ghost predicate Landed(h: Hashing, st: ClientState, st': ClientState, remote: Owner, locs: seq<Loc>, s: Sets)
    requires forall l :: l in locs ==> l in s
  {
    && (forall l :: l in locs ==> l in st'.0 && Copied(h, st'.0[l], s[l], l) && Get(st'.1, l) == Some(remote))
    && (forall l :: l !in locs ==> Get(st'.0, l) == Get(st.0, l) && Get(st'.1, l) == Get(st.1, l))
  }

  lemma LandOneMore(h: Hashing, st: ClientState, mid: ClientState, st': ClientState, remote: Owner, locs: seq<Loc>,
                    x: Loc, s: Sets)
    requires x in s && x !in locs && forall l :: l in locs ==> l in s
    requires Landed(h, st, mid, remote, locs, s)
    requires x in st'.0 && Copied(h, st'.0[x], s[x], x)
    requires st'.0 == mid.0[x := st'.0[x]] && st'.1 == mid.1[x := remote]
    ensures Landed(h, st, st', remote, locs + [x], s)
  {
    hide Copied;
  }

  /** Each resource lands in its own locality; all others stay. */
  lemma {:induction false} ReceiveEach(h: Hashing, st: ClientState, remote: Owner, rs: seq<XdsResource>,
                                       locs: seq<Loc>, s: Sets)
    requires Answers(rs, locs, s) && NoDuplicates(locs)
    requires forall i :: 0 <= i < |locs| ==> Allowed(st.1, remote, locs[i]) && Survives(locs[i])
    ensures forall i :: 0 <= i < |rs| ==> Decodable(rs[i])
    ensures Landed(h, st, ReceivedAll(h, st, remote, rs), remote, locs, s)
  {
    hide HashTrue, CacheTrue, Copied, EncodedSpec, Received, Survives, Landed;
    if rs == [] {
      NoneLanded(h, st, remote, s);
    } else {
      var n := |rs| - 1;
      ReceiveEach(h, st, remote, rs[..n], locs[..n], s);
      var mid := ReceivedAll(h, st, remote, rs[..n]);
      assert locs == locs[..n] + [locs[n]];
      assert locs[n] !in locs[..n];
      StillAllowed(h, st, mid, remote, locs[..n], s, locs[n]);
      ReceiveOne(h, mid, remote, rs[n], s[locs[n]], locs[n]);
      LandOneMore(h, st, mid, ReceivedAll(h, st, remote, rs), remote, locs[..n], locs[n], s);
    }
  }

  lemma NoneLanded(h: Hashing, st: ClientState, remote: Owner, s: Sets)
    ensures Landed(h, st, st, remote, [], s)
  {}

  lemma StillAllowed(h: Hashing, st: ClientState, mid: ClientState, remote: Owner, locs: seq<Loc>, s: Sets, l: Loc)
    requires forall m :: m in locs ==> m in s
    requires Landed(h, st, mid, remote, locs, s) && l !in locs && Allowed(st.1, remote, l)
    ensures Allowed(mid.1, remote, l)
  {
    assert Get(mid.1, l) == Get(st.1, l);
  }

  /** The versions after the client's acknowledgement. */
  function Acked(versions: Versions, resources: seq<XdsResource>, removed: set<string>): Versions {
    if resources == [] then versions - removed
    else
      var last := resources[|resources| - 1];
      Acked(versions, resources[..|resources| - 1], removed)[last.name := last.version]
  }

  lemma {:induction false} AckedAt(versions: Versions, rs: seq<XdsResource>, removed: set<string>, locs: seq<Loc>,
                                   s: Sets, l: Loc)
    requires Answers(rs, locs, s)
    requires forall m :: m in locs && Name(m) == Name(l) ==> m == l
    ensures Get(Acked(versions, rs, removed), Name(l)) ==
            if l in locs then Some(s[l].hash) else if Name(l) in removed then None else Get(versions, Name(l))
  {
    if rs != [] {
      var n := |rs| - 1;
      assert locs == locs[..n] + [locs[n]];
      AckedAt(versions, rs[..n], removed, locs[..n], s, l);
      assert rs[n].name == Name(locs[n]);
    }
  }

  ghost function ViewsIn(s: Sets): set<TokenView> {
    (set l | l in s :: View(s[l].endpoints))
    + (set l | l in s && s[l].cache.Some? :: View(s[l].cache.value.resource.endpoints))
  }

  /** One request, its application and its acknowledgement. */
  datatype Round =
    Round(subscribed: set<string>, resources: seq<XdsResource>, removed: set<string>, locs: seq<Loc>)

  /** `r` is the server's answer for its sets `s`. */
  ghost predicate IsAnswer(r: Round, s: Sets, versions: Versions) {
    && Missing(r.locs, s, versions, r.subscribed) && Answers(r.resources, r.locs, s)
    && r.removed == if "" in versions && None !in s then {""} else {}
  }

  /** The client has the server's tokens for everything it asks for. */
  ghost predicate Agrees(subscribed: set<string>, s: Sets, c: Sets) {
    forall l :: l in s && Asked(subscribed, l) ==> l in c && View(c[l].endpoints) == View(s[l].endpoints)
  }

  lemma AfterRemoval(h: Hashing, st: ClientState, remote: Owner, locs: set<Loc>, r: Round, s: Sets, versions: Versions)
    requires IsAnswer(r, s, versions) && Sound(locs) && Unclaimed(locs, st.1, remote)
    ensures var st1 := RemovedAll(st, remote, r.removed);
            && Unclaimed(locs, st1.1, remote)
            && st1.0 == if "" in versions && None !in s then st.0 - {None} else st.0
  {
    hide Missing, Answers;
  }

  /**
   * One round: every locality asked for is on the client with the server's tokens, the endpoints
   * without locality go if the server has none, nothing else is touched, and what the server now
   * believes of the client is true again, so that the next answer is empty.
   */
  lemma RoundConverges(h: Hashing, locs: set<Loc>, s: Sets, st: ClientState, remote: Owner, versions: Versions,
                       r: Round)
    requires Sound(locs) && s.Keys <= locs && ServerTrue(h, s)
    requires Believed(h, locs, versions, st.0) && Unclaimed(locs, st.1, remote)
    requires IsAnswer(r, s, versions)
    requires InjectiveContent(h, ViewsIn(s) + ViewsIn(st.0))
    ensures forall i :: 0 <= i < |r.resources| ==> Decodable(r.resources[i])
    ensures var st' := ReceivedAll(h, RemovedAll(st, remote, r.removed), remote, r.resources);
            var versions' := Acked(versions, r.resources, r.removed);
            && Agrees(r.subscribed, s, st'.0)
            && (None !in s && "" in versions ==> None !in st'.0)
            && (forall l :: !(l in s && Asked(r.subscribed, l)) && !(l == None && None !in s && "" in versions) ==>
                  Get(st'.0, l) == Get(st.0, l))
            && Believed(h, locs, versions', st'.0) && Unclaimed(locs, st'.1, remote)
            && (forall l :: l in s && Asked(r.subscribed, l) ==> UpToDate(s, versions', l))
            && ("" in versions' ==> None in s)
  {
    hide Asked, HashTrue, CacheTrue, EncodedSpec, InjectiveContent, View, Survives, Landed, Copied, ReceivedAll, Acked,
         ViewsIn, RemovedAll;
    var st1 := RemovedAll(st, remote, r.removed);
    AfterRemoval(h, st, remote, locs, r, s, versions);
    assert forall i :: 0 <= i < |r.locs| ==> r.locs[i] in r.locs;
    ReceiveEach(h, st1, remote, r.resources, r.locs, s);
    var st' := ReceivedAll(h, st1, remote, r.resources);
    var versions' := Acked(versions, r.resources, r.removed);
    forall l | l in s && Asked(r.subscribed, l)
      ensures l in st'.0 && View(st'.0[l].endpoints) == View(s[l].endpoints) && UpToDate(s, versions', l) {
      AgreesAt(h, locs, s, st, st1, st', remote, versions, r, l);
      AckedAt(versions, r.resources, r.removed, r.locs, s, l);
    }
    forall l | l in locs
      ensures Name(l) in versions' ==> l in st'.0 && st'.0[l].hash == versions'[Name(l)] && HashTrue(h, st'.0[l])
      ensures Allowed(st'.1, remote, l) {
      BelievedAt(h, locs, s, st, st1, st', remote, versions, r, l);
    }
    forall l | !(l in s && Asked(r.subscribed, l)) ensures Get(st'.0, l) == Get(st1.0, l) {
      LandedElsewhere(h, st1, st', remote, r.locs, s, l);
    }
    AckedAt(versions, r.resources, r.removed, r.locs, s, None);
  }

  lemma LandedElsewhere(h: Hashing, st: ClientState, st': ClientState, remote: Owner, ls: seq<Loc>, s: Sets, l: Loc)
    requires forall m :: m in ls ==> m in s
    requires Landed(h, st, st', remote, ls, s)
    ensures l !in ls ==> Get(st'.0, l) == Get(st.0, l) && Get(st'.1, l) == Get(st.1, l)
    ensures l in ls ==> l in st'.0 && Copied(h, st'.0[l], s[l], l) && Get(st'.1, l) == Some(remote)
  {
    hide Copied;
  }

  lemma AgreesAt(h: Hashing, locs: set<Loc>, s: Sets, st: ClientState, st1: ClientState, st': ClientState,
                 remote: Owner, versions: Versions, r: Round, l: Loc)
    requires Sound(locs) && s.Keys <= locs && ServerTrue(h, s) && Believed(h, locs, versions, st.0)
    requires IsAnswer(r, s, versions) && l in s && Asked(r.subscribed, l)
    requires InjectiveContent(h, ViewsIn(s) + ViewsIn(st.0))
    requires st1.0 == if "" in versions && None !in s then st.0 - {None} else st.0
    requires Landed(h, st1, st', remote, r.locs, s)
    ensures l in st'.0 && View(st'.0[l].endpoints) == View(s[l].endpoints)
  {
    hide View, Landed, Asked;
    LandedElsewhere(h, st1, st', remote, r.locs, s, l);
    assert View(s[l].endpoints) in ViewsIn(s);
    if l in r.locs {
      var v := View(EncodedSpec(s[l], l).0.endpoints);
      assert v in ViewsIn(s);
      assert h.content(v) == h.content(View(s[l].endpoints));
    } else {
      assert UpToDate(s, versions, l);
      assert Name(l) in versions && l in st.0;
      assert l in st1.0 && st1.0[l] == st.0[l];
      assert st'.0[l] == st.0[l];
      assert View(st.0[l].endpoints) in ViewsIn(st.0);
    }
  }

  lemma BelievedAt(h: Hashing, locs: set<Loc>, s: Sets, st: ClientState, st1: ClientState, st': ClientState,
                   remote: Owner, versions: Versions, r: Round, l: Loc)
    requires Sound(locs) && s.Keys <= locs && ServerTrue(h, s) && Believed(h, locs, versions, st.0)
             && Unclaimed(locs, st1.1, remote)
    requires IsAnswer(r, s, versions) && l in locs
    requires st1.0 == if "" in versions && None !in s then st.0 - {None} else st.0
    requires Landed(h, st1, st', remote, r.locs, s)
    ensures var versions' := Acked(versions, r.resources, r.removed);
            && (Name(l) in versions' ==> l in st'.0 && st'.0[l].hash == versions'[Name(l)] && HashTrue(h, st'.0[l]))
            && Allowed(st'.1, remote, l)
  {
    hide View, Landed, HashTrue, CacheTrue, EncodedSpec, Acked, Asked;
    var versions' := Acked(versions, r.resources, r.removed);
    LandedElsewhere(h, st1, st', remote, r.locs, s, l);
    AckedAt(versions, r.resources, r.removed, r.locs, s, l);
    if l !in r.locs {
      assert Get(st'.1, l) == Get(st1.1, l);
      if Name(l) in versions' {
        assert Name(l) !in r.removed;
        assert l in st.0 && l in st1.0 && st1.0[l] == st.0[l];
      }
    }
  }

  /**
   * Whatever the server's versions, memos and names: after a round the client agrees with it
   * exactly when the memos of the localities it sends are current and the client already agrees
   * on those it takes to be up to date.
   */
  lemma RoundAgreesExactly(h: Hashing, s: Sets, st: ClientState, remote: Owner, versions: Versions, r: Round)
    requires forall l :: l in s ==> Survives(l) && Allowed(st.1, remote, l)
    requires Allowed(st.1, remote, None) && IsAnswer(r, s, versions)
    ensures forall i :: 0 <= i < |r.resources| ==> Decodable(r.resources[i])
    ensures Agrees(r.subscribed, s, ReceivedAll(h, RemovedAll(st, remote, r.removed), remote, r.resources).0) <==>
            forall l :: l in s && Asked(r.subscribed, l) ==>
              if UpToDate(s, versions, l) then l in st.0 && View(st.0[l].endpoints) == View(s[l].endpoints)
              else View(EncodedSpec(s[l], l).0.endpoints) == View(s[l].endpoints)
  {
    hide EncodedSpec, View, Survives, Landed, Copied, ReceivedAll, Answers, UpToDate, Asked;
    var st1 := RemovedAll(st, remote, r.removed);
    assert forall i :: 0 <= i < |r.locs| ==> r.locs[i] in r.locs;
    ReceiveEach(h, st1, remote, r.resources, r.locs, s);
    var st' := ReceivedAll(h, st1, remote, r.resources);
    AnswersKnown(r.resources, r.locs, s);
    forall l | l in s && Asked(r.subscribed, l)
      ensures l in st'.0 && View(st'.0[l].endpoints) == View(s[l].endpoints) <==>
        if UpToDate(s, versions, l) then l in st.0 && View(st.0[l].endpoints) == View(s[l].endpoints)
        else View(EncodedSpec(s[l], l).0.endpoints) == View(s[l].endpoints) {
      LandedElsewhere(h, st1, st', remote, r.locs, s, l);
      if l in r.locs {
        CopiedView(h, st'.0[l], s[l], l);
      } else {
        assert Get(st1.0, l) == Get(st.0, l);
      }
    }
  }

  lemma AnswersKnown(rs: seq<XdsResource>, locs: seq<Loc>, s: Sets)
    requires Answers(rs, locs, s)
    ensures forall l :: l in locs ==> l in s
  {}

  lemma CopiedView(h: Hashing, copy: EndpointSet, of: EndpointSet, l: Loc)
    requires Copied(h, copy, of, l)
    ensures View(copy.endpoints) == View(EncodedSpec(of, l).0.endpoints)
  {}

  /** A client that is up to date gets an empty answer. */
  lemma SecondRoundIsEmpty(s: Sets, versions: Versions, r: Round)
    requires IsAnswer(r, s, versions)
    requires forall l :: l in s && Asked(r.subscribed, l) ==> UpToDate(s, versions, l)
    requires "" in versions ==> None in s
    ensures r.resources == [] && r.removed == {}
  {
    hide Asked;
    EmptySeq(r.locs);
  }

  /** The answers a server gives can come to rest exactly when equal names go with equal versions. */
  ghost predicate NamesSettle(s: Sets) {
    && (forall l, m :: l in s && m in s && Name(l) == Name(m) ==> s[l].hash == s[m].hash)
    && (forall l :: l in s && Name(l) == "" ==> None in s)
  }

  /** A client without a subscription is told nothing. */
  ghost predicate EmptyAnswer(r: Round, s: Sets, versions: Versions) {
    r.subscribed == {} && IsAnswer(r, s, versions) && r.resources == [] && r.removed == {}
  }

  ghost function HashOf(s: Sets, n: string): (hash: U64)
    requires exists l :: l in s && Name(l) == n
    ensures exists l :: l in s && Name(l) == n && hash == s[l].hash
  {
    var l :| l in s && Name(l) == n;
    s[l].hash
  }

  lemma AnswersCanSettle(s: Sets)
    ensures (exists r, versions :: EmptyAnswer(r, s, versions)) <==> NamesSettle(s)
  {
    if NamesSettle(s) {
      var names := set l | l in s :: Name(l);
      var versions := map n | n in names :: HashOf(s, n);
      assert forall l :: l in s ==> UpToDate(s, versions, l);
      assert EmptyAnswer(Round({}, [], {}, []), s, versions);
    }
    if exists r, versions :: EmptyAnswer(r, s, versions) {
      var r, versions :| EmptyAnswer(r, s, versions);
      EmptySeq(r.locs);
      assert forall l :: l in s ==> UpToDate(s, versions, l);
    }
  }

  /** Two localities made from different parts under one name: while their versions differ, no answer is ever empty. */
  lemma ClashingNamesNeverSettle(s: Sets, r: Round, versions: Versions)
    requires Some(Make("a:b", "", "")) in s && Some(Make("a", "b", "")) in s
    requires s[Some(Make("a:b", "", ""))].hash != s[Some(Make("a", "b", ""))].hash
    ensures Make("a:b", "", "") != Make("a", "b", "") && !Dangling(Make("a:b", "", "")) && !Dangling(Make("a", "b", ""))
    ensures r.subscribed == {} && IsAnswer(r, s, versions) ==> r.resources != []
  {
    var l, m := Make("a:b", "", ""), Make("a", "b", "");
    assert l.buffer == "a:b" == m.buffer && l.region == 3 && m.region == 1;
    if r.subscribed == {} && IsAnswer(r, s, versions) {
      assert !(UpToDate(s, versions, Some(l)) && UpToDate(s, versions, Some(m)));
      assert Some(l) in r.locs || Some(m) in r.locs;
    }
  }

  /**
   * A change stream moves no version. A client that was up to date is told nothing of it, and
   * from then on disagrees exactly when the stream as a whole changed an address or a token.
   */
  lemma StreamIsNotAnnounced(h: Hashing, s: Sets, l: Loc, events: seq<Corrosion.StreamEvent>, after: EndpointSet,
                             st: ClientState, remote: Owner, versions: Versions, r: Round)
    requires l in s && Corrosion.Streamed(s[l], events, after)
    requires Agrees({}, s, st.0) && (forall m :: m in s ==> UpToDate(s, versions, m)) && ("" in versions ==> None in s)
    requires IsAnswer(r, s[l := after], versions)
    ensures r.resources == [] && r.removed == {}
    ensures ReceivedAll(h, RemovedAll(st, remote, r.removed), remote, r.resources) == st
    ensures Agrees({}, s[l := after], st.0) <==>
            View(Corrosion.EpsAfterAll(s[l].endpoints, Corrosion.ChangesIn(events))) == View(s[l].endpoints)
  {
    hide View, Corrosion.EpsAfterAll, Corrosion.ChangesIn, Answers;
    var s' := s[l := after];
    assert forall m :: m in s' ==> UpToDate(s', versions, m);
    SecondRoundIsEmpty(s', versions, r);
    assert s'[l] == after && forall m :: m in s && m != l ==> s'[m] == s[m];
  }

  /** A client fed by one server through any number of rounds, the server changing in between. */
  datatype History = History(servers: seq<Sets>, rounds: seq<Round>, clients: seq<ClientState>, versions: seq<Versions>)

  /** The server's answer, the client's application and the acknowledgement, run in sequence. */
  method TakeRound(server: ClusterMap, b: Bridge, versions: Versions, subscribed: set<string>, remote: Owner,
                   icao: Option<string>, ghost locs: set<Loc>)
      returns (versions': Versions)
    requires server != b.m && server.h == b.m.h && b.configured && b.m.Valid()
    requires Sound(locs) && server.sets.Keys <= locs && ServerTrue(server.h, server.sets)
    requires Believed(server.h, locs, versions, b.m.sets) && Unclaimed(locs, b.m.owners, remote)
    requires InjectiveContent(server.h, ViewsIn(server.sets) + ViewsIn(b.m.sets))
    modifies server`sets, b, b.m
    ensures b.m.Valid() && SameButMemo(server.sets, old(server.sets))
    ensures Agrees(subscribed, old(server.sets), b.m.sets)
    ensures None !in old(server.sets) && "" in versions ==> None !in b.m.sets
    ensures Believed(server.h, locs, versions', b.m.sets) && Unclaimed(locs, b.m.owners, remote)
    ensures forall l :: l in old(server.sets) && Asked(subscribed, l) ==> UpToDate(old(server.sets), versions', l)
    ensures "" in versions' ==> None in old(server.sets)
  {
    hide Sound, ServerTrue, Believed, Unclaimed, InjectiveContent, ViewsIn, SameButMemo, Agrees, Missing, Answers,
         ReceivedAll, RemovedEach, RemovedAll, Acked, UpToDate, Asked;
    ghost var was := server.sets;
    ghost var st := (b.m.sets, b.m.owners);
    var resources, removed, ls := DeltaDiscoveryRequest(server, versions, subscribed);
    RoundConverges(server.h, locs, was, st, remote, versions, Round(subscribed, resources, removed, ls));
    AnnouncedRemovals(st, remote, removed);
    var names := if removed == {} then [] else [""];
    var ok, dropped, applied := ApplyDelta(b, true, remote, icao, resources, names);
    assert dropped == |names| && names[..|names|] == names;
    assert applied == |resources| && resources[..|resources|] == resources;
    versions' := Acked(versions, resources, removed);
  }

  ghost predicate RoundTaken(h: Hashing, locs: set<Loc>, remote: Owner, s: Sets, r: Round,
                             st: ClientState, versions: Versions, st': ClientState, versions': Versions) {
    && s.Keys <= locs && ServerTrue(h, s) && InjectiveContent(h, ViewsIn(s) + ViewsIn(st.0))
    && IsAnswer(r, s, versions)
    && (forall i :: 0 <= i < |r.resources| ==> Decodable(r.resources[i]))
    && st' == ReceivedAll(h, RemovedAll(st, remote, r.removed), remote, r.resources)
    && versions' == Acked(versions, r.resources, r.removed)
  }

  ghost predicate IsHistory(h: Hashing, locs: set<Loc>, remote: Owner, y: History) {
    && |y.servers| == |y.rounds| && |y.clients| == |y.versions| == |y.rounds| + 1
    && y.versions[0] == map[] && Unclaimed(locs, y.clients[0].1, remote)
    && forall i :: 0 <= i < |y.rounds| ==>
         RoundTaken(h, locs, remote, y.servers[i], y.rounds[i], y.clients[i], y.versions[i], y.clients[i + 1],
           y.versions[i + 1])
  }

  /** From the first connection on, after every round the client agrees with the server of that round. */
  lemma {:induction false} EveryRoundConverges(h: Hashing, locs: set<Loc>, remote: Owner, y: History, n: nat)
    requires Sound(locs) && IsHistory(h, locs, remote, y) && n <= |y.rounds|
    ensures Believed(h, locs, y.versions[n], y.clients[n].0) && Unclaimed(locs, y.clients[n].1, remote)
    ensures n > 0 ==> Agrees(y.rounds[n - 1].subscribed, y.servers[n - 1], y.clients[n].0)
    decreases n
  {
    hide Believed, Unclaimed, Agrees, ReceivedAll, Acked, InjectiveContent, IsAnswer, Sound, ServerTrue, RemovedAll;
    if n == 0 {
      NothingBelieved(h, locs, y.clients[0].0);
    } else {
      EveryRoundConverges(h, locs, remote, y, n - 1);
      var i := n - 1;
      assert RoundTaken(h, locs, remote, y.servers[i], y.rounds[i], y.clients[i], y.versions[i], y.clients[i + 1],
        y.versions[i + 1]);
      RoundConverges(h, locs, y.servers[i], y.clients[i], remote, y.versions[i], y.rounds[i]);
    }
  }

  lemma NothingBelieved(h: Hashing, locs: set<Loc>, c: Sets)
    ensures Believed(h, locs, map[], c)
  {}
}
