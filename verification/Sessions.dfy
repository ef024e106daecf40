/**
 * The session pool (src/net/sessions.rs): sockets are shared between destinations, never between
 * two sessions to one destination. The abstract state is one relation from (source, destination)
 * to the local port, plus the ports of all sockets ever opened.
 */
module Sessions {
  import opened Base
  import opened MultiMaps

  datatype Ip = V4(bits4: U32) | V6(bits6: U128)

  datatype SocketAddr = SocketAddr(ip: Ip, port: U16)

  /** IpAddr::to_canonical: an IPv4-mapped address (::ffff:a.b.c.d) becomes the IPv4 address. */
  function Canonical(a: SocketAddr): SocketAddr {
    if a.ip.V6? && a.ip.bits6 / 0x1_0000_0000 == 0xffff
    then a.(ip := V4(a.ip.bits6 % 0x1_0000_0000))
    else a
  }

  datatype SessionKey = SessionKey(source: SocketAddr, dest: SocketAddr)

  datatype Port = Port(number: U16)

  /** What tells upstream traffic apart: the server it comes from and the local port it reaches. */
  datatype Flow = Flow(dest: SocketAddr, port: Port)

  /** The queue through which packets reach one upstream socket. */
  datatype Sender = Sender(id: nat)

  datatype Session = Session(port: Port, sender: Sender)

  /** IpNetEntry, the GeoIP record of a source. */
  datatype AsnInfo = AsnInfo(id: nat)

  datatype PoolError = SessionLimit | SocketUnavailable | MissingAllocatedSocket | MissingDestinationSocket

  // ---- The relation and its views ----

  type Relation = map<SessionKey, Port>

  function SessionsTo(rel: Relation, d: SocketAddr): set<SessionKey> {
    set k | k in rel && k.dest == d
  }

  function PortsTo(rel: Relation, d: SocketAddr): set<Port> {
    set k | k in rel && k.dest == d :: rel[k]
  }

  /** Two live sessions to one destination never share a port. */
  ghost predicate Exclusive(rel: Relation) {
    forall j, k :: j in rel && k in rel && j.dest == k.dest && rel[j] == rel[k] ==> j == k
  }

  function SourcesOf(rel: Relation): set<SocketAddr> {
    set k | k in rel :: k.source
  }

  /** The pairs destination_to_sockets groups by destination. */
  function DestPorts(rel: Relation): set<(SocketAddr, Port)> {
    set k | k in rel :: (k.dest, rel[k])
  }

  /** The pairs sockets_to_destination groups by port. */
  function PortDests(rel: Relation): set<(Port, SocketAddr)> {
    set k | k in rel :: (rel[k], k.dest)
  }

  function FlowOf(rel: Relation, k: SessionKey): Flow
    requires k in rel
  {
    Flow(k.dest, rel[k])
  }

  function KeyOf(src: map<Flow, SocketAddr>, f: Flow): SessionKey
    requires f in src
  {
    SessionKey(src[f], f.dest)
  }

  /** destination_to_sources inverts the relation. */
  ghost predicate Inverts(src: map<Flow, SocketAddr>, rel: Relation) {
    && (forall k {:trigger FlowOf(rel, k)} :: k in rel ==> FlowOf(rel, k) in src && src[FlowOf(rel, k)] == k.source)
    && (forall f {:trigger KeyOf(src, f)} :: f in src ==> KeyOf(src, f) in rel && rel[KeyOf(src, f)] == f.port)
  }

  /** How the views follow one new session. */
  lemma AddViews(src: map<Flow, SocketAddr>, rel: Relation, k: SessionKey, p: Port)
    requires Inverts(src, rel) && k !in rel && p !in PortsTo(rel, k.dest)
    ensures Inverts(src[Flow(k.dest, p) := k.source], rel[k := p])
    ensures DestPorts(rel[k := p]) == DestPorts(rel) + {(k.dest, p)}
    ensures PortDests(rel[k := p]) == PortDests(rel) + {(p, k.dest)}
    ensures SourcesOf(rel[k := p]) == SourcesOf(rel) + {k.source}
  {
    var src', rel' := src[Flow(k.dest, p) := k.source], rel[k := p];
    assert rel'.Keys == rel.Keys + {k} && forall j :: j in rel ==> rel'[j] == rel[j];
    forall j | j in rel' ensures FlowOf(rel', j) in src' && src'[FlowOf(rel', j)] == j.source {
      if j != k { assert FlowOf(rel', j) == FlowOf(rel, j) != Flow(k.dest, p); }
    }
    forall f | f in src' ensures KeyOf(src', f) in rel' && rel'[KeyOf(src', f)] == f.port {
      if f != Flow(k.dest, p) { assert KeyOf(src', f) == KeyOf(src, f); }
    }
  }

  /** How they follow one closed session; exclusivity makes the removals exact. */
  lemma RemoveViews(src: map<Flow, SocketAddr>, rel: Relation, k: SessionKey)
    requires Inverts(src, rel) && k in rel && Exclusive(rel)
    ensures Inverts(src - {FlowOf(rel, k)}, rel - {k})
    ensures DestPorts(rel - {k}) == DestPorts(rel) - {(k.dest, rel[k])}
    ensures PortDests(rel - {k}) == PortDests(rel) - {(rel[k], k.dest)}
    ensures SourcesOf(rel) <= SourcesOf(rel - {k}) + {k.source}
  {
    var src', rel' := src - {FlowOf(rel, k)}, rel - {k};
    assert forall j :: j in rel && j != k ==> j in rel' && rel'[j] == rel[j];
    forall j | j in rel' ensures FlowOf(rel', j) in src' && src'[FlowOf(rel', j)] == j.source {
      assert FlowOf(rel', j) == FlowOf(rel, j) != FlowOf(rel, k);
    }
    forall f | f in src' ensures KeyOf(src', f) in rel' && rel'[KeyOf(src', f)] == f.port {
      assert KeyOf(src', f) == KeyOf(src, f);
      assert FlowOf(rel, k) == Flow(k.dest, rel[k]);
    }
  }

  // ---- Steps and runs of the abstract pool ----

  datatype PoolState = PoolState(rel: Relation, sockets: set<Port>)

  const EMPTY := PoolState(map[], {})

  /** A session for `key` starts on an open socket that no session to `key.dest` uses. */
  ghost predicate Reuses(s: PoolState, key: SessionKey, s': PoolState) {
    exists p :: p in s.sockets - PortsTo(s.rel, key.dest) && s' == PoolState(s.rel[key := p], s.sockets)
  }

  /** Every open socket already serves `key.dest`, so a new one is opened. */
  ghost predicate Opens(s: PoolState, key: SessionKey, s': PoolState) {
    && s.sockets <= PortsTo(s.rel, key.dest)
    && exists p :: p !in s.sockets && s' == PoolState(s.rel[key := p], s.sockets + {p})
  }

  /** SessionPool::get; the pool is unchanged when it returns an existing session or an error. */
  ghost predicate GetStep(s: PoolState, max: nat, key: SessionKey, s': PoolState) {
    || s' == s
    || (key !in s.rel && |s.rel| < max && (Reuses(s, key, s') || Opens(s, key, s')))
  }

  ghost predicate DropStep(s: PoolState, key: SessionKey, s': PoolState) {
    s' == PoolState(s.rel - {key}, s.sockets)
  }

  ghost predicate Step(s: PoolState, max: nat, s': PoolState) {
    exists key :: GetStep(s, max, key, s') || DropStep(s, key, s')
  }

  ghost predicate IsRun(run: seq<PoolState>, max: nat) {
    && run != []
    && run[0] == EMPTY
    && forall i :: 0 < i < |run| ==> Step(run[i - 1], max, run[i])
  }

  function Load(s: PoolState, d: SocketAddr): nat {
    |SessionsTo(s.rel, d)|
  }

  ghost predicate Inv(s: PoolState, max: nat) {
    && Exclusive(s.rel)
    && s.rel.Values <= s.sockets
    && |s.rel| <= max
  }

  lemma {:induction false} InjectiveImage(rel: Relation, ks: set<SessionKey>, d: SocketAddr)
    requires Exclusive(rel)
    requires ks <= SessionsTo(rel, d)
    ensures |set k | k in ks :: rel[k]| == |ks|
  {
    var ports := set k | k in ks :: rel[k];
    if ks == {} {
      assert ports == {};
    } else {
      var k :| k in ks;
      InjectiveImage(rel, ks - {k}, d);
      assert ports == (set j | j in ks - {k} :: rel[j]) + {rel[k]};
    }
  }

  /** Each session to `d` occupies its own socket. */
  lemma LoadIsPorts(s: PoolState, d: SocketAddr)
    requires Exclusive(s.rel)
    ensures Load(s, d) == |PortsTo(s.rel, d)|
  {
    InjectiveImage(s.rel, SessionsTo(s.rel, d), d);
    assert PortsTo(s.rel, d) == set k | k in SessionsTo(s.rel, d) :: s.rel[k];
  }

  lemma LoadBound(s: PoolState, d: SocketAddr, max: nat)
    requires Inv(s, max)
    ensures Load(s, d) <= |s.sockets|
    ensures Load(s, d) <= max
  {
    LoadIsPorts(s, d);
    assert PortsTo(s.rel, d) <= s.rel.Values;
    SubsetCardinality(PortsTo(s.rel, d), s.sockets);
    SubsetCardinality(SessionsTo(s.rel, d), s.rel.Keys);
  }

  lemma StartSession(s: PoolState, max: nat, key: SessionKey, p: Port)
    requires Inv(s, max) && key !in s.rel && |s.rel| < max
    requires p !in PortsTo(s.rel, key.dest)
    ensures Inv(PoolState(s.rel[key := p], s.sockets + {p}), max)
    ensures Load(PoolState(s.rel[key := p], s.sockets + {p}), key.dest) == Load(s, key.dest) + 1
  {
    var rel' := s.rel[key := p];
    assert rel'.Keys == s.rel.Keys + {key};
    assert SessionsTo(rel', key.dest) == SessionsTo(s.rel, key.dest) + {key};
    forall j, k | j in rel' && k in rel' && j.dest == k.dest && rel'[j] == rel'[k] ensures j == k {
      assert forall i :: i in s.rel && i.dest == key.dest ==> s.rel[i] in PortsTo(s.rel, key.dest);
    }
  }

  lemma DropKeepsInv(s: PoolState, max: nat, key: SessionKey)
    requires Inv(s, max)
    ensures Inv(PoolState(s.rel - {key}, s.sockets), max)
  {
    SubsetCardinality((s.rel - {key}).Keys, s.rel.Keys);
  }

  lemma ReuseKeepsInv(s: PoolState, max: nat, key: SessionKey, s': PoolState)
    requires Inv(s, max) && key !in s.rel && |s.rel| < max && Reuses(s, key, s')
    ensures Inv(s', max)
    ensures s'.sockets == s.sockets
  {
    var p :| p in s.sockets - PortsTo(s.rel, key.dest) && s' == PoolState(s.rel[key := p], s.sockets);
    StartSession(s, max, key, p);
    assert s.sockets + {p} == s.sockets;
  }

  lemma OpenKeepsInv(s: PoolState, max: nat, key: SessionKey, s': PoolState)
    requires Inv(s, max) && key !in s.rel && |s.rel| < max && Opens(s, key, s')
    ensures Inv(s', max)
    ensures s.sockets <= s'.sockets
    ensures Load(s', key.dest) == |s'.sockets|
  {
    var p :| p !in s.sockets && s' == PoolState(s.rel[key := p], s.sockets + {p});
    assert PortsTo(s.rel, key.dest) <= s.rel.Values;
    assert PortsTo(s.rel, key.dest) == s.sockets;
    StartSession(s, max, key, p);
    LoadIsPorts(s, key.dest);
  }

  lemma StepKeepsInv(s: PoolState, max: nat, s': PoolState)
    requires Inv(s, max) && Step(s, max, s')
    ensures Inv(s', max)
    ensures s.sockets <= s'.sockets
    ensures s'.sockets == s.sockets || exists d :: Load(s', d) == |s'.sockets|
  {
    var key :| GetStep(s, max, key, s') || DropStep(s, key, s');
    if s' == s {
    } else if DropStep(s, key, s') {
      DropKeepsInv(s, max, key);
    } else if Reuses(s, key, s') {
      ReuseKeepsInv(s, max, key, s');
    } else {
      OpenKeepsInv(s, max, key, s');
    }
  }

  /** Every reachable pool keeps sessions to one destination on distinct open sockets. */
  lemma {:induction false} RunKeepsInv(run: seq<PoolState>, max: nat)
    requires IsRun(run, max)
    ensures forall i :: 0 <= i < |run| ==> Inv(run[i], max)
  {
    if |run| > 1 {
      var pre := run[..|run| - 1];
      RunKeepsInv(pre, max);
      assert Step(run[|run| - 2], max, run[|run| - 1]);
      assert pre[|run| - 2] == run[|run| - 2];
      StepKeepsInv(run[|run| - 2], max, run[|run| - 1]);
      forall i | 0 <= i < |run| ensures Inv(run[i], max) {
        if i < |run| - 1 { assert pre[i] == run[i]; }
      }
    }
  }

  /** The sockets a run opened are all there at its end. */
  lemma {:induction false} SocketsGrow(run: seq<PoolState>, max: nat, i: nat)
    requires IsRun(run, max) && i < |run|
    ensures run[i].sockets <= run[|run| - 1].sockets
    decreases |run| - i
  {
    if i + 1 < |run| {
      RunKeepsInv(run, max);
      assert Step(run[i + 1 - 1], max, run[i + 1]);
      StepKeepsInv(run[i], max, run[i + 1]);
      SocketsGrow(run, max, i + 1);
    }
  }

  /** The last socket was opened when some destination used all the others. */
  lemma {:induction false} LastOpening(run: seq<PoolState>, max: nat) returns (i: nat, d: SocketAddr)
    requires IsRun(run, max) && run[|run| - 1].sockets != {}
    ensures i < |run| && Load(run[i], d) == |run[|run| - 1].sockets|
  {
    RunKeepsInv(run, max);
    var n := |run| - 1;
    assert Step(run[n - 1], max, run[n]);
    StepKeepsInv(run[n - 1], max, run[n]);
    if run[n].sockets == run[n - 1].sockets {
      assert run[..n][n - 1] == run[n - 1];
      i, d := LastOpening(run[..n], max);
    } else {
      i := n;
      d :| Load(run[n], d) == |run[n].sockets|;
    }
  }

  /**
   * Socket economy: the number of sockets opened is the high-water mark, over the whole run, of
   * simultaneous sessions to any one destination, and so never exceeds the session limit.
   */
  lemma SocketEconomy(run: seq<PoolState>, max: nat)
    requires IsRun(run, max)
    ensures forall i, d :: 0 <= i < |run| ==> Load(run[i], d) <= |run[|run| - 1].sockets|
    ensures run[|run| - 1].sockets == {}
            || exists i, d :: 0 <= i < |run| && Load(run[i], d) == |run[|run| - 1].sockets|
    ensures |run[|run| - 1].sockets| <= max
  {
    RunKeepsInv(run, max);
    var last := run[|run| - 1];
    forall i, d | 0 <= i < |run| ensures Load(run[i], d) <= |last.sockets| {
      LoadBound(run[i], d, max);
      SocketsGrow(run, max, i);
      SubsetCardinality(run[i].sockets, last.sockets);
    }
    if last.sockets != {} {
      var i, d := LastOpening(run, max);
      LoadBound(run[i], d, max);
    }
  }

  /** Dropping every live session, in any order, leaves no session; repeats and strangers are harmless. */
  lemma {:induction false} DroppingAllEmpties(s: PoolState, run: seq<PoolState>, order: seq<SessionKey>)
    requires |run| == |order| + 1 && run[0] == s
    requires forall i :: 0 <= i < |order| ==> DropStep(run[i], order[i], run[i + 1])
    ensures run[|order|].rel == s.rel - (set k | k in order)
    ensures run[|order|].sockets == s.sockets
    ensures (forall k :: k in s.rel ==> k in order) ==> run[|order|].rel == map[]
  {
    if order == [] {
      assert s.rel - (set k | k in order) == s.rel;
    } else {
      var n := |order| - 1;
      DroppingAllEmpties(s, run[..|order|], order[..n]);
      assert DropStep(run[n], order[n], run[n + 1]);
      assert (set k | k in order) == (set k | k in order[..n]) + {order[n]} by {
        assert order == order[..n] + [order[n]];
      }
    }
  }

  /** With no live session every storage map is empty. */
  lemma EmptyViews(src: map<Flow, SocketAddr>, toSockets: MultiMap<SocketAddr, Port>,
                   toDests: MultiMap<Port, SocketAddr>, asn: map<SocketAddr, AsnInfo>)
    requires Inverts(src, map[]) && Indexes(toSockets, DestPorts(map[])) && Indexes(toDests, PortDests(map[]))
    requires asn.Keys <= SourcesOf(map[])
    ensures src == map[] && toSockets == map[] && toDests == map[] && asn == map[]
  {
    assert forall f :: f in src ==> KeyOf(src, f).dest == f.dest;
    IndexUnique(toSockets, map[], {});
    IndexUnique(toDests, map[], {});
    assert forall a :: a in asn ==> a in asn.Keys;
  }

  // ---- Replies ----

  /** An IPv6 address that stands for an IPv4 address. */
  predicate Mapped(ip: Ip) {
    ip.V6? && 0xffff_0000_0000 <= ip.bits6 < 0x1_0000_0000_0000
  }

  /** The server at `dest` is heard under `from`: its own address, or an IPv4 address in mapped form. */
  predicate HeardAs(dest: SocketAddr, from: SocketAddr) {
    || (dest == from && !Mapped(from.ip))
    || (dest.ip.V4? && from == SocketAddr(V6(0xffff_0000_0000 + dest.ip.bits4), dest.port))
  }

  lemma HeardCanonically(dest: SocketAddr, from: SocketAddr)
    ensures HeardAs(dest, from) <==> Canonical(from) == dest
  {}

  /** What a packet received from `from` on local port `p` is routed to. */
  ghost predicate RoutesTo(rel: Relation, from: SocketAddr, p: Port, source: SocketAddr) {
    var k := SessionKey(source, Canonical(from));
    k in rel && rel[k] == p
  }

  /** A reply can only ever reach one source. */
  lemma ReplyIsUnambiguous(rel: Relation, from: SocketAddr, p: Port, s: SocketAddr, t: SocketAddr)
    requires Exclusive(rel) && RoutesTo(rel, from, p, s) && RoutesTo(rel, from, p, t)
    ensures s == t
  {
    assert SessionKey(s, Canonical(from)).dest == SessionKey(t, Canonical(from)).dest;
  }

  /** However a pool with a session for `k` came about, replies from its destination go to its source. */
  ghost predicate AlwaysComesBack(k: SessionKey, max: nat) {
    forall run: seq<PoolState> :: IsRun(run, max) && k in run[|run| - 1].rel ==>
      RoutesTo(run[|run| - 1].rel, k.dest, run[|run| - 1].rel[k], k.source)
  }

  /** Replies always come back exactly when the session was not asked for under a mapped destination. */
  lemma ReplyComesBack(k: SessionKey, max: nat)
    requires max > 0
    ensures AlwaysComesBack(k, max) <==> !Mapped(k.dest.ip)
  {
    HeardCanonically(k.dest, k.dest);
    if !Mapped(k.dest.ip) {
      assert SessionKey(k.source, k.dest) == k;
    } else {
      var run := OneSession(k, max);
      assert !RoutesTo(run[1].rel, k.dest, run[1].rel[k], k.source);
      assert IsRun(run, max) && k in run[|run| - 1].rel;
    }
  }

  lemma OneSession(k: SessionKey, max: nat) returns (run: seq<PoolState>)
    requires max > 0
    ensures IsRun(run, max) && |run| == 2 && run[1].rel == map[k := Port(1)]
  {
    var s := PoolState(map[k := Port(1)], {Port(1)});
    run := [EMPTY, s];
    assert EMPTY.rel[k := Port(1)] == s.rel && EMPTY.sockets + {Port(1)} == s.sockets;
    assert Opens(EMPTY, k, s);
    assert GetStep(EMPTY, max, k, s);
    assert Step(run[0], max, run[1]);
  }

  /** An IPv4-mapped destination loses its replies: here one is delivered to another client. */
  lemma MappedDestinationMisroutes() returns (run: seq<PoolState>, a: SessionKey, b: SessionKey)
    ensures IsRun(run, 2) && |run| == 3
    ensures a in run[2].rel && b in run[2].rel && a.source != b.source
    ensures RoutesTo(run[2].rel, a.dest, run[2].rel[a], b.source)
    ensures !RoutesTo(run[2].rel, a.dest, run[2].rel[a], a.source)
  {
    var mapped := SocketAddr(V6(0xffff_0102_0304), 7777);
    var plain := SocketAddr(V4(0x0102_0304), 7777);
    assert Canonical(mapped) == plain;
    a := SessionKey(SocketAddr(V4(1), 1), mapped);
    b := SessionKey(SocketAddr(V4(2), 2), plain);
    var p := Port(5);
    var s1 := PoolState(map[a := p], {p});
    var s2 := PoolState(map[a := p, b := p], {p});
    run := [EMPTY, s1, s2];
    assert EMPTY.rel[a := p] == s1.rel && EMPTY.sockets + {p} == s1.sockets;
    assert Opens(EMPTY, a, s1);
    assert GetStep(EMPTY, 2, a, s1);
    assert p in s1.sockets - PortsTo(s1.rel, plain) && s2 == PoolState(s1.rel[b := p], s1.sockets);
    assert Reuses(s1, b, s2);
    assert |s1.rel| == 1;
    assert GetStep(s1, 2, b, s2);
    assert Step(run[0], 2, run[1]) && Step(run[1], 2, run[2]);
  }

  // ---- The pool itself ----

  lemma InvExclusive(s: PoolState, max: nat)
    requires Inv(s, max)
    ensures Exclusive(s.rel)
  {}

  lemma FreshPort(s: PoolState, max: nat, d: SocketAddr, p: Port)
    requires Inv(s, max) && p !in s.sockets
    ensures p !in PortsTo(s.rel, d)
    ensures Inv(PoolState(s.rel, s.sockets + {p}), max)
  {
    assert PortsTo(s.rel, d) <= s.rel.Values;
  }

  /** What is known of a source, after a lookup. */
  function Noted(asns: map<SocketAddr, AsnInfo>, source: SocketAddr, asn: Option<AsnInfo>): map<SocketAddr, AsnInfo> {
    if asn.Some? then asns[source := asn.value] else asns
  }

  /** The entry of a source goes with the first of its sessions. */
  function Forgotten(asns: map<SocketAddr, AsnInfo>, removed: bool, source: SocketAddr): map<SocketAddr, AsnInfo> {
    if removed then asns - {source} else asns
  }

  lemma NothingForgotten(asns: map<SocketAddr, AsnInfo>, source: SocketAddr)
    ensures Forgotten(asns, false, source) == asns
  {}

  /** The session map carries the relation, and each session the sender of its port. */
  ghost predicate Carries(sessions: map<SessionKey, Session>, rel: Relation, senders: map<Port, Sender>) {
    && sessions.Keys == rel.Keys
    && forall k :: k in sessions ==> sessions[k].port == rel[k] && Get(senders, rel[k]) == Some(sessions[k].sender)
  }

  lemma CarryRemove(sessions: map<SessionKey, Session>, rel: Relation, senders: map<Port, Sender>, k: SessionKey)
    requires Carries(sessions, rel, senders)
    ensures |sessions| == |rel|
    ensures k in sessions <==> k in rel
    ensures k in rel ==> sessions[k].port == rel[k]
    ensures Carries(sessions - {k}, rel - {k}, senders)
  {
    assert |sessions.Keys| == |rel.Keys|;
  }

  lemma CarryAdd(sessions: map<SessionKey, Session>, rel: Relation, senders: map<Port, Sender>, k: SessionKey,
                 s: Session)
    requires Carries(sessions, rel, senders) && Get(senders, s.port) == Some(s.sender)
    ensures Carries(sessions[k := s], rel[k := s.port], senders)
  {}

  lemma CarryOpen(sessions: map<SessionKey, Session>, rel: Relation, senders: map<Port, Sender>, s: Session)
    requires Carries(sessions, rel, senders) && s.port !in senders
    ensures Carries(sessions, rel, senders[s.port := s.sender])
  {}

  class SessionPool {
    var portsToSockets: map<Port, Sender>
    var destinationToSockets: MultiMap<SocketAddr, Port>
    var destinationToSources: map<Flow, SocketAddr>
    var sourcesToAsnInfo: map<SocketAddr, AsnInfo>
    var socketsToDestination: MultiMap<Port, SocketAddr>
    var sessionMap: map<SessionKey, Session>
    const maxSessions: nat

    /** The relation the pool implements. */
    ghost var rel: Relation

    ghost function State(): PoolState
      reads this
    {
      PoolState(rel, portsToSockets.Keys)
    }

    /** The four storage maps and the session map are views of one relation. */
    ghost predicate Valid()
      reads this
    {
      && Inv(State(), maxSessions) && Carries(sessionMap, rel, portsToSockets)
      && Inverts(destinationToSources, rel)
      && Indexes(destinationToSockets, DestPorts(rel))
      && Indexes(socketsToDestination, PortDests(rel))
      && sourcesToAsnInfo.Keys <= SourcesOf(rel)
    }

    constructor (maxSessions: nat)
      ensures Valid() && State() == EMPTY && this.maxSessions == maxSessions
    {
      this.maxSessions := maxSessions;
      portsToSockets, destinationToSockets, destinationToSources := map[], map[], map[];
      sourcesToAsnInfo, socketsToDestination, sessionMap := map[], map[], map[];
      rel := map[];
    }

    /**
     * The storage half of a new session. `Obtain` may have listed the port for the destination
     * already; `listed` is destination_to_sockets as it was before.
     */
    method Reserve(key: SessionKey, port: Port, asn: Option<AsnInfo>, ghost listed: MultiMap<SocketAddr, Port>)
      requires Inverts(destinationToSources, rel)
      requires Indexes(listed, DestPorts(rel)) && Indexes(socketsToDestination, PortDests(rel))
      requires sourcesToAsnInfo.Keys <= SourcesOf(rel)
      requires destinationToSockets == listed || destinationToSockets == Add(listed, key.dest, port)
      requires key !in rel && port !in PortsTo(rel, key.dest)
      modifies this`destinationToSockets, this`socketsToDestination, this`sourcesToAsnInfo, this`destinationToSources
      ensures Inverts(destinationToSources, rel[key := port])
      ensures Indexes(destinationToSockets, DestPorts(rel[key := port]))
      ensures Indexes(socketsToDestination, PortDests(rel[key := port]))
      ensures sourcesToAsnInfo.Keys <= SourcesOf(rel[key := port])
      ensures sourcesToAsnInfo == Noted(old(sourcesToAsnInfo), key.source, asn)
    {
      hide Inverts, Indexes, SourcesOf, DestPorts, PortDests, PortsTo, Add;
      AddViews(destinationToSources, rel, key, port);
      IndexAdd(listed, DestPorts(rel), key.dest, port);
      IndexAdd(socketsToDestination, PortDests(rel), port, key.dest);
      AddTwice(listed, key.dest, port);
      destinationToSockets := Add(destinationToSockets, key.dest, port);
      socketsToDestination := Add(socketsToDestination, port, key.dest);
      destinationToSources := destinationToSources[Flow(key.dest, port) := key.source];
      if asn.Some? {
        sourcesToAsnInfo := sourcesToAsnInfo[key.source := asn.value];
      }
    }

    /** Reserves an open socket for a new session. */
    method CreateSessionFromExistingSocket(
        key: SessionKey, sender: Sender, port: Port, asn: Option<AsnInfo>, ghost listed: MultiMap<SocketAddr, Port>)
        returns (r: Result<Sender, PoolError>)
      requires Inv(State(), maxSessions) && Carries(sessionMap, rel, portsToSockets)
      requires Inverts(destinationToSources, rel)
      requires Indexes(listed, DestPorts(rel)) && Indexes(socketsToDestination, PortDests(rel))
      requires sourcesToAsnInfo.Keys <= SourcesOf(rel)
      requires destinationToSockets == listed || destinationToSockets == Add(listed, key.dest, port)
      requires key !in rel && |rel| < maxSessions && port !in PortsTo(rel, key.dest)
      requires Get(portsToSockets, port) == Some(sender)
      modifies this
      ensures Valid()
      ensures State() == PoolState(old(rel)[key := port], old(portsToSockets.Keys))
      ensures r == Ok(sender) && Get(sessionMap, key) == Some(Session(port, sender))
      ensures sourcesToAsnInfo == Noted(old(sourcesToAsnInfo), key.source, asn)
    {
      hide Inverts, Indexes, Inv, SourcesOf, DestPorts, PortDests, PortsTo, Add, Carries, Load;
      StartSession(State(), maxSessions, key, port);
      assert portsToSockets.Keys + {port} == portsToSockets.Keys;
      CarryAdd(sessionMap, rel, portsToSockets, key, Session(port, sender));
      Reserve(key, port, asn, listed);
      sessionMap := sessionMap[key := Session(port, sender)];
      rel := rel[key := port];
      r := Ok(sender);
    }

    /** Opens a socket; `socket` is what the operating system gave, None if it refused. */
    method CreateNewSessionFromNewSocket(key: SessionKey, socket: Option<(Port, Sender)>, asn: Option<AsnInfo>)
        returns (r: Result<Sender, PoolError>)
      requires Valid()
      requires key !in rel && |rel| < maxSessions
      requires socket.Some? ==> socket.value.0 !in portsToSockets
      modifies this
      ensures Valid()
      ensures socket.None? ==> r == Err(SocketUnavailable) && State() == old(State())
      ensures socket.Some? ==>
                && r == Ok(socket.value.1) && Get(sessionMap, key) == Some(Session(socket.value.0, r.value))
                && State() == PoolState(old(rel)[key := socket.value.0], old(portsToSockets.Keys) + {socket.value.0})
      ensures sourcesToAsnInfo == if r.Ok? then Noted(old(sourcesToAsnInfo), key.source, asn) else old(sourcesToAsnInfo)
    {
      hide Inverts, Indexes, SourcesOf, DestPorts, PortDests, Carries, Inv, PortsTo;
      match socket
      case None =>
        return Err(SocketUnavailable);
      case Some((port, sender)) =>
        FreshPort(State(), maxSessions, key.dest, port);
        CarryOpen(sessionMap, rel, portsToSockets, Session(port, sender));
        portsToSockets := portsToSockets[port := sender];
        assert portsToSockets.Keys == old(portsToSockets.Keys) + {port};
        r := CreateSessionFromExistingSocket(key, sender, port, asn, destinationToSockets);
    }

    /** A pool without sessions keeps no trace of any. */
    lemma NoSessionNoTrace()
      requires Valid() && rel == map[]
      ensures destinationToSources == map[] && destinationToSockets == map[] && socketsToDestination == map[]
      ensures sourcesToAsnInfo == map[] && sessionMap == map[]
    {
      EmptyViews(destinationToSources, destinationToSockets, socketsToDestination, sourcesToAsnInfo);
    }

    /** Which open sockets `Get` must avoid. */
    lemma TakenSockets(d: SocketAddr)
      requires Indexes(destinationToSockets, DestPorts(rel))
      ensures GetOr(destinationToSockets, d, {}) == PortsTo(rel, d)
    {
      forall p ensures p in GetOr(destinationToSockets, d, {}) <==> p in PortsTo(rel, d) {
        if p in PortsTo(rel, d) { assert (d, p) in DestPorts(rel); }
        if p in GetOr(destinationToSockets, d, {}) { assert (d, p) in DestPorts(rel); }
      }
    }

    /**
     * Finds or creates the session for `key`. The two "should be unreachable" errors never occur,
     * and a new socket is opened only when every open one already serves the destination.
     */
    method Obtain(key: SessionKey, socket: Option<(Port, Sender)>, asn: Option<AsnInfo>)
        returns (r: Result<Sender, PoolError>)
      requires Valid()
      requires socket.Some? ==> socket.value.0 !in portsToSockets
      modifies this
      ensures Valid()
      ensures GetStep(old(State()), maxSessions, key, State())
      ensures r.Ok? <==> key in rel
      ensures r.Ok? ==> sessionMap[key].sender == r.value
      ensures r.Err? ==> State() == old(State())
      ensures r == Err(SessionLimit) <==> key !in old(rel) && |old(rel)| >= maxSessions
      ensures r == Err(SocketUnavailable) <==>
                && key !in old(rel) && |old(rel)| < maxSessions && socket.None?
                && old(State()).sockets <= PortsTo(old(rel), key.dest)
      ensures r != Err(MissingAllocatedSocket) && r != Err(MissingDestinationSocket)
      ensures sourcesToAsnInfo == if key in rel && key !in old(rel)
                                  then Noted(old(sourcesToAsnInfo), key.source, asn)
                                  else old(sourcesToAsnInfo)
    {
      hide Inverts, Indexes, Inv, SourcesOf, DestPorts, PortDests, PortsTo;
      assert |sessionMap| == |sessionMap.Keys| == |rel.Keys|;
      if key in sessionMap {
        return Ok(sessionMap[key].sender);
      }
      if |sessionMap| >= maxSessions {
        return Err(SessionLimit);
      }
      ghost var before := State();
      TakenSockets(key.dest);
      if key.dest !in destinationToSockets {
        if portsToSockets == map[] {
          r := CreateNewSessionFromNewSocket(key, socket, asn);
          assert socket.Some? ==> Opens(before, key, State());
        } else {
          assert portsToSockets.Keys != {};
          var port :| port in portsToSockets.Keys;
          r := CreateSessionFromExistingSocket(key, portsToSockets[port], port, asn, destinationToSockets);
          assert port in before.sockets - PortsTo(before.rel, key.dest);
          assert Reuses(before, key, State());
        }
        return;
      }
      var taken := destinationToSockets[key.dest];
      if available :| available in portsToSockets.Keys && available !in taken {
        ghost var listed := destinationToSockets;
        destinationToSockets := destinationToSockets[key.dest := taken + {available}];
        r := CreateSessionFromExistingSocket(key, portsToSockets[available], available, asn, listed);
        assert available in before.sockets - PortsTo(before.rel, key.dest);
        assert Reuses(before, key, State());
      } else {
        r := CreateNewSessionFromNewSocket(key, socket, asn);
        assert socket.Some? ==> Opens(before, key, State());
      }
    }

    /** Gives a dropped session's socket back. */
    method ReleaseSocket(key: SessionKey, port: Port)
      requires key in rel && rel[key] == port && Exclusive(rel)
      requires Inverts(destinationToSources, rel)
      requires Indexes(destinationToSockets, DestPorts(rel)) && Indexes(socketsToDestination, PortDests(rel))
      modifies this`destinationToSockets, this`socketsToDestination, this`sourcesToAsnInfo, this`destinationToSources
      ensures Inverts(destinationToSources, rel - {key})
      ensures Indexes(destinationToSockets, DestPorts(rel - {key}))
      ensures Indexes(socketsToDestination, PortDests(rel - {key}))
      ensures old(sourcesToAsnInfo.Keys) <= SourcesOf(rel) ==> sourcesToAsnInfo.Keys <= SourcesOf(rel - {key})
      ensures sourcesToAsnInfo == Forgotten(old(sourcesToAsnInfo), true, key.source)
    {
      assert (key.dest, port) in DestPorts(rel) && (port, key.dest) in PortDests(rel);
      assert key.dest in destinationToSockets && port in socketsToDestination;
      hide Inverts, Indexes, DestPorts, PortDests, SourcesOf, Exclusive;
      RemoveViews(destinationToSources, rel, key);
      IndexRemove(destinationToSockets, DestPorts(rel), key.dest, port);
      IndexRemove(socketsToDestination, PortDests(rel), port, key.dest);

      if key.dest !in destinationToSockets {
        return;
      }
      destinationToSockets := Remove(destinationToSockets, key.dest, port);
      if port !in socketsToDestination {
        return;
      }
      socketsToDestination := Remove(socketsToDestination, port, key.dest);
      sourcesToAsnInfo := sourcesToAsnInfo - {key.source};
      destinationToSources := destinationToSources - {Flow(key.dest, port)};
    }

    /** A session leaves the session map, by expiry or by removal, and its Drop releases the socket. */
    method Drop(key: SessionKey) returns (removed: bool)
      requires Valid()
      modifies this
      ensures Valid()
      ensures removed == (key in old(rel))
      ensures DropStep(old(State()), key, State())
      ensures sourcesToAsnInfo == Forgotten(old(sourcesToAsnInfo), removed, key.source)
    {
      hide Inverts, Indexes, DestPorts, PortDests, SourcesOf, Inv, Exclusive, Carries, Forgotten;
      CarryRemove(sessionMap, rel, portsToSockets, key);
      removed := key in sessionMap;
      if !removed {
        assert rel - {key} == rel;
        NothingForgotten(sourcesToAsnInfo, key.source);
        return;
      }
      var port := sessionMap[key].port;
      InvExclusive(State(), maxSessions);
      DropKeepsInv(State(), maxSessions, key);
      sessionMap := sessionMap - {key};
      ReleaseSocket(key, port);
      rel := rel - {key};
    }

    /** The downstream client to which a packet from an upstream server goes, if any. */
    method ProcessReceivedUpstreamPacket(from: SocketAddr, port: Port) returns (r: Option<SocketAddr>)
      requires Valid()
      ensures r.Some? ==> RoutesTo(rel, from, port, r.value)
      ensures r.None? ==> forall source :: !RoutesTo(rel, from, port, source)
      ensures forall k :: k in rel && rel[k] == port && HeardAs(k.dest, from) ==> r == Some(k.source)
      ensures r.Some? ==> exists k :: k in rel && rel[k] == port && HeardAs(k.dest, from) && k.source == r.value
    {
      hide Indexes, Inv, Canonical, HeardAs;
      forall dest ensures HeardAs(dest, from) <==> Canonical(from) == dest {
        HeardCanonically(dest, from);
      }
      var f := Flow(Canonical(from), port);
      if f !in destinationToSources {
        assert forall k :: k in rel && k.dest == f.dest && rel[k] == port ==> FlowOf(rel, k) == f;
        return None;
      }
      assert KeyOf(destinationToSources, f) in rel;
      assert forall k :: k in rel && k.dest == f.dest && rel[k] == port ==> FlowOf(rel, k) == f;
      return Some(destinationToSources[f]);
    }
  }
}
