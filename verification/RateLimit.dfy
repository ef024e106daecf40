/**
 * LocalRateLimit (src/filters/local_rate_limit.rs): a packet counter and a window start per source,
 * kept in a TTL map that forgets a source sixty seconds after its last packet.
 */
module RateLimit {
  import opened Base
  import opened Endpoints
  import opened Ttl

  const TTL_SECS: nat := 60

  /** The counter counts every packet of the window, rejected ones too. */
  datatype Bucket = Bucket(counter: nat, start: nat)

  datatype Config = Config(maxPackets: nat, period: nat)

  // ---- One source ----

  /** What acquire_token decides for a source whose bucket is `b`, at second `now`. */
  function Acquire(cfg: Config, b: Option<Bucket>, now: nat): (Option<Bucket>, bool) {
    if cfg.maxPackets == 0 then (b, false)
    else if b.None? then (Some(Bucket(1, now)), true)
    else
      var startNew := now - b.value.start > cfg.period;
      if b.value.counter >= cfg.maxPackets && !startNew then (Some(b.value.(counter := b.value.counter + 1)), false)
      else if startNew then (Some(Bucket(1, now)), true)
      else (Some(b.value.(counter := b.value.counter + 1)), true)
  }

  /** Times in nanoseconds. */
  datatype Event = Packet(at: nat) | Prune(at: nat)

  datatype Accept = Accept(at: nat, window: nat)

  /**
   * One source's history: its bucket with the second it expires at, the start of every window so
   * far, and every accepted packet with the window it was counted in.
   */
  datatype State = State(bucket: Option<Bucket>, expiresAt: nat, starts: seq<nat>, accepts: seq<Accept>)

  const EMPTY := State(None, 0, [], [])

  function Step(cfg: Config, s: State, e: Event): State {
    match e
    case Prune(at) => if s.bucket.Some? && s.expiresAt <= Secs(at) then s.(bucket := None) else s
    case Packet(at) =>
      var now := Secs(at);
      var (b, ok) := Acquire(cfg, s.bucket, now);
      if cfg.maxPackets == 0 then s
      else
        var newWindow := s.bucket.None? || now - s.bucket.value.start > cfg.period;
        var starts := if newWindow then s.starts + [now] else s.starts;
        State(b, now + TTL_SECS, starts,
              if ok then s.accepts + [Accept(at, if |starts| == 0 then 0 else |starts| - 1)] else s.accepts)
  }

  function Run(cfg: Config, events: seq<Event>): State {
    if events == [] then EMPTY else Step(cfg, Run(cfg, events[..|events| - 1]), events[|events| - 1])
  }

  /** The clock never goes back. */
  predicate Ordered(events: seq<Event>) {
    forall i, j :: 0 <= i < j < |events| ==> events[i].at <= events[j].at
  }

  function InWindow(accepts: seq<Accept>, w: nat): nat {
    if accepts == [] then 0
    else InWindow(accepts[..|accepts| - 1], w) + if accepts[|accepts| - 1].window == w then 1 else 0
  }

  /** Packets accepted in the closed span from `from` to `until`. */
  function InSpan(accepts: seq<Accept>, from: nat, until: nat): nat {
    if accepts == [] then 0
    else InSpan(accepts[..|accepts| - 1], from, until)
         + if from <= accepts[|accepts| - 1].at <= until then 1 else 0
  }

  /** A window ends by reset, after the period, or by expiry, after the TTL. */
  function Gap(cfg: Config): nat {
    if cfg.period <= TTL_SECS then cfg.period else TTL_SECS
  }

  ghost predicate WindowsApart(cfg: Config, starts: seq<nat>) {
    forall i :: 0 < i < |starts| ==> starts[i] >= starts[i - 1] + Gap(cfg)
  }

  /** A packet was accepted within its window, and before the next one began. */
  ghost predicate AcceptsPlaced(starts: seq<nat>, accepts: seq<Accept>) {
    forall i :: 0 <= i < |accepts| ==>
      var a := accepts[i];
      && a.window < |starts| && starts[a.window] <= Secs(a.at)
      && (a.window + 1 < |starts| ==> Secs(a.at) < starts[a.window + 1])
  }

  /** When one packet is allowed, only the packet that opens a window is accepted. */
  ghost predicate OnlyOpenings(cfg: Config, starts: seq<nat>, accepts: seq<Accept>) {
    cfg.maxPackets == 1 ==>
      forall i :: 0 <= i < |accepts| && accepts[i].window < |starts| ==>
        Secs(accepts[i].at) == starts[accepts[i].window]
  }

  ghost predicate WindowsBounded(cfg: Config, accepts: seq<Accept>) {
    forall w :: InWindow(accepts, w) <= cfg.maxPackets
  }

  ghost predicate Placed(cfg: Config, starts: seq<nat>, accepts: seq<Accept>) {
    WindowsApart(cfg, starts) && AcceptsPlaced(starts, accepts) && OnlyOpenings(cfg, starts, accepts)
  }

  /** `now` is a lower bound of every second still to come. */
  ghost predicate Inv(cfg: Config, s: State, now: nat) {
    && Placed(cfg, s.starts, s.accepts) && WindowsBounded(cfg, s.accepts)
    && (s.starts == [] ==> s.bucket.None?)
    && (s.starts != [] ==> s.starts[|s.starts| - 1] <= now)
    && (forall i :: 0 <= i < |s.accepts| ==> Secs(s.accepts[i].at) <= now)
    && (forall w :: w >= |s.starts| ==> InWindow(s.accepts, w) == 0)
    && match s.bucket
       case Some(b) =>
         var last := |s.starts| - 1;
         && b.start == s.starts[last] && b.counter >= 1 && s.expiresAt >= b.start + TTL_SECS
         && InWindow(s.accepts, last) == (if b.counter < cfg.maxPackets then b.counter else cfg.maxPackets)
         && (forall i :: 0 <= i < |s.accepts| ==>
            Secs(s.accepts[i].at) <= b.start + cfg.period && Secs(s.accepts[i].at) + TTL_SECS <= s.expiresAt)
       case None =>
         s.starts != [] ==>
           && now >= s.starts[|s.starts| - 1] + TTL_SECS
           && forall i :: 0 <= i < |s.accepts| ==> Secs(s.accepts[i].at) + TTL_SECS <= now
  }

  lemma {:induction false} NoWindow(accepts: seq<Accept>, w: nat)
    requires forall i :: 0 <= i < |accepts| ==> accepts[i].window != w
    ensures InWindow(accepts, w) == 0
  {
    if accepts != [] {
      NoWindow(accepts[..|accepts| - 1], w);
    }
  }

  lemma OneMore(accepts: seq<Accept>, a: Accept, w: nat)
    ensures InWindow(accepts + [a], w) == InWindow(accepts, w) + if a.window == w then 1 else 0
  {
    assert (accepts + [a])[..|accepts|] == accepts;
  }

  lemma PlaceOpening(cfg: Config, starts: seq<nat>, accepts: seq<Accept>, at: nat)
    requires Placed(cfg, starts, accepts)
    requires starts != [] ==>
               && Secs(at) >= starts[|starts| - 1] + Gap(cfg)
               && forall i :: 0 <= i < |accepts| ==> Secs(accepts[i].at) < Secs(at)
    ensures Placed(cfg, starts + [Secs(at)], accepts + [Accept(at, |starts|)])
  {}

  lemma PlaceAnother(cfg: Config, starts: seq<nat>, accepts: seq<Accept>, at: nat)
    requires Placed(cfg, starts, accepts) && cfg.maxPackets > 1
    requires starts != [] && Secs(at) >= starts[|starts| - 1]
    ensures Placed(cfg, starts, accepts + [Accept(at, |starts| - 1)])
  {}

  lemma CountOneMore(accepts: seq<Accept>, a: Accept)
    ensures forall w :: InWindow(accepts + [a], w) == InWindow(accepts, w) + if a.window == w then 1 else 0
  {
    forall w ensures InWindow(accepts + [a], w) == InWindow(accepts, w) + if a.window == w then 1 else 0 {
      OneMore(accepts, a, w);
    }
  }

  lemma OpenWindow(cfg: Config, s: State, at: nat, now: nat)
    requires cfg.maxPackets > 0
    requires Inv(cfg, s, now) && now <= Secs(at)
    requires s.bucket.None? || Secs(at) - s.bucket.value.start > cfg.period
    ensures Inv(cfg, Step(cfg, s, Packet(at)), Secs(at))
  {
    hide Placed, InWindow, Secs;
    CountOneMore(s.accepts, Accept(at, |s.starts|));
    PlaceOpening(cfg, s.starts, s.accepts, at);
    var s' := Step(cfg, s, Packet(at));
    assert s'.starts == s.starts + [Secs(at)] && s'.accepts == s.accepts + [Accept(at, |s.starts|)];
  }

  lemma SameWindow(cfg: Config, s: State, at: nat, now: nat)
    requires cfg.maxPackets > 0
    requires Inv(cfg, s, now) && now <= Secs(at)
    requires s.bucket.Some? && Secs(at) - s.bucket.value.start <= cfg.period
    ensures Inv(cfg, Step(cfg, s, Packet(at)), Secs(at))
  {
    hide Placed, InWindow, Secs;
    if s.bucket.value.counter < cfg.maxPackets {
      CountOneMore(s.accepts, Accept(at, |s.starts| - 1));
      PlaceAnother(cfg, s.starts, s.accepts, at);
    }
  }

  lemma PruneKeepsInv(cfg: Config, s: State, at: nat, now: nat)
    requires Inv(cfg, s, now) && now <= Secs(at)
    ensures Inv(cfg, Step(cfg, s, Event.Prune(at)), Secs(at))
  {
    hide Placed, InWindow, Secs;
  }

  lemma StepKeepsInv(cfg: Config, s: State, e: Event, now: nat)
    requires cfg.maxPackets > 0
    requires Inv(cfg, s, now) && now <= Secs(e.at)
    ensures Inv(cfg, Step(cfg, s, e), Secs(e.at))
  {
    hide Inv, Step;
    match e
    case Prune(at) => PruneKeepsInv(cfg, s, at, now);
    case Packet(at) =>
      if s.bucket.None? || Secs(at) - s.bucket.value.start > cfg.period {
        OpenWindow(cfg, s, at, now);
      } else {
        SameWindow(cfg, s, at, now);
      }
  }

  lemma {:induction false} RunKeepsInv(cfg: Config, events: seq<Event>)
    requires cfg.maxPackets > 0 && Ordered(events)
    ensures Inv(cfg, Run(cfg, events), if events == [] then 0 else Secs(events[|events| - 1].at))
  {
    hide Inv, Step;
    if events == [] {
      EmptyInv(cfg);
    } else {
      var n := |events| - 1;
      RunKeepsInv(cfg, events[..n]);
      var now := if n == 0 then 0 else Secs(events[n - 1].at);
      assert n > 0 ==> events[..n][n - 1] == events[n - 1];
      StepKeepsInv(cfg, Run(cfg, events[..n]), events[n], now);
    }
  }

  lemma EmptyInv(cfg: Config)
    ensures Inv(cfg, EMPTY, 0)
  {}

  // ---- The bound ----

  lemma {:induction false} StartsApart(cfg: Config, starts: seq<nat>, i: nat, j: nat)
    requires WindowsApart(cfg, starts) && i < j < |starts|
    ensures starts[j] >= starts[i] + Gap(cfg)
  {
    if i + 1 < j {
      StartsApart(cfg, starts, i, j - 1);
    }
    assert starts[j] >= starts[j - 1] + Gap(cfg);
  }

  /** The configurations for which the bound holds. */
  predicate Bounded(cfg: Config) {
    cfg.period <= TTL_SECS || (cfg.maxPackets == 1 && cfg.period < 2 * TTL_SECS)
  }

  /** Packets two windows apart are more than a period apart. */
  lemma FarApart(cfg: Config, s: State, i: nat, j: nat)
    requires Placed(cfg, s.starts, s.accepts) && Bounded(cfg)
    requires i < |s.accepts| && j < |s.accepts| && s.accepts[i].window + 1 < s.accepts[j].window
    ensures s.accepts[j].at > s.accepts[i].at + cfg.period * SECOND
  {
    var a, b := s.accepts[i], s.accepts[j];
    StartsApart(cfg, s.starts, a.window + 1, b.window);
    StartsApart(cfg, s.starts, a.window, a.window + 1);
    assert Secs(b.at) >= Secs(a.at) + 1 + cfg.period;
  }

  lemma {:induction false} SpanWithinTwo(accepts: seq<Accept>, from: nat, until: nat, w: nat)
    requires forall i :: 0 <= i < |accepts| && from <= accepts[i].at <= until ==>
             accepts[i].window == w || accepts[i].window == w + 1
    ensures InSpan(accepts, from, until) <= InWindow(accepts, w) + InWindow(accepts, w + 1)
  {
    if accepts != [] {
      SpanWithinTwo(accepts[..|accepts| - 1], from, until, w);
    }
  }

  lemma {:induction false} EmptySpan(accepts: seq<Accept>, from: nat, until: nat)
    requires forall i :: 0 <= i < |accepts| ==> !(from <= accepts[i].at <= until)
    ensures InSpan(accepts, from, until) == 0
  {
    if accepts != [] {
      EmptySpan(accepts[..|accepts| - 1], from, until);
    }
  }

  /** The accepted packet of the span with the least window. */
  lemma {:induction false} LeastWindow(accepts: seq<Accept>, from: nat, until: nat) returns (k: int)
    ensures -1 <= k < |accepts|
    ensures k == -1 ==> forall i :: 0 <= i < |accepts| ==> !(from <= accepts[i].at <= until)
    ensures k >= 0 ==> from <= accepts[k].at <= until
    ensures k >= 0 ==> forall i :: 0 <= i < |accepts| && from <= accepts[i].at <= until ==>
            accepts[k].window <= accepts[i].window
  {
    if accepts == [] {
      return -1;
    }
    var n := |accepts| - 1;
    k := LeastWindow(accepts[..n], from, until);
    if from <= accepts[n].at <= until && (k == -1 || accepts[n].window < accepts[k].window) {
      forall i | 0 <= i < n && from <= accepts[i].at <= until ensures accepts[n].window <= accepts[i].window {
        assert accepts[..n][i] == accepts[i];
      }
      k := n;
    } else {
      forall i | 0 <= i < n && from <= accepts[i].at <= until ensures k >= 0 && accepts[k].window <= accepts[i].window {
        assert accepts[..n][i] == accepts[i];
      }
    }
  }

  /**
   * For a period up to the TTL, or below twice the TTL if only one packet is allowed, no span of
   * `period` seconds accepts more than twice max_packets from one source, across window resets
   * and bucket expiry.
   */
  lemma AtMostTwiceMax(cfg: Config, events: seq<Event>, from: nat)
    requires cfg.maxPackets > 0 && Bounded(cfg) && Ordered(events)
    ensures InSpan(Run(cfg, events).accepts, from, from + cfg.period * SECOND) <= 2 * cfg.maxPackets
  {
    hide Run;
    RunKeepsInv(cfg, events);
    var s := Run(cfg, events);
    var until := from + cfg.period * SECOND;
    var k := LeastWindow(s.accepts, from, until);
    if k == -1 {
      EmptySpan(s.accepts, from, until);
    } else {
      var w := s.accepts[k].window;
      forall i | 0 <= i < |s.accepts| && from <= s.accepts[i].at <= until
        ensures s.accepts[i].window == w || s.accepts[i].window == w + 1 {
        if s.accepts[i].window > w + 1 { FarApart(cfg, s, k, i); }
      }
      SpanWithinTwo(s.accepts, from, until, w);
    }
  }

  /** A rejection means max_packets were accepted in a window begun at most a period ago. */
  lemma RejectionIsDeserved(cfg: Config, events: seq<Event>, at: nat)
    requires cfg.maxPackets > 0 && Ordered(events + [Packet(at)])
    ensures var s := Run(cfg, events);
            Acquire(cfg, s.bucket, Secs(at)).1 || (
              && s.starts != []
              && InWindow(s.accepts, |s.starts| - 1) == cfg.maxPackets
              && s.starts[|s.starts| - 1] <= Secs(at) <= s.starts[|s.starts| - 1] + cfg.period)
  {
    hide Run;
    assert forall i :: 0 <= i < |events| ==> events[i] == (events + [Packet(at)])[i];
    assert events != [] ==> events[|events| - 1].at <= (events + [Packet(at)])[|events|].at;
    RunKeepsInv(cfg, events);
  }

  /**
   * After any run a packet is accepted exactly when some packets are allowed and its source has no
   * bucket, or the window is more than a period old, or fewer than max_packets were accepted in it.
   */
  lemma AcceptedExactly(cfg: Config, events: seq<Event>, at: nat)
    requires Ordered(events + [Packet(at)])
    ensures var s, s' := Run(cfg, events), Run(cfg, events + [Packet(at)]);
            var last := |s.starts| - 1;
            && (s.bucket.Some? ==> s.starts != [])
            && |s'.accepts| == |s.accepts| +
                 if cfg.maxPackets > 0 && (s.bucket.None? || Secs(at) - s.starts[last] > cfg.period
                      || InWindow(s.accepts, last) < cfg.maxPackets)
                 then 1 else 0
  {
    hide Run;
    RunLast(cfg, events, Packet(at));
    assert forall i :: 0 <= i < |events| ==> events[i] == (events + [Packet(at)])[i];
    if cfg.maxPackets == 0 {
      NoneAllowed(cfg, events);
    } else {
      RunKeepsInv(cfg, events);
    }
  }

  /** With max_packets 0 no run has a packet accepted. */
  lemma {:induction false} NoneAllowed(cfg: Config, events: seq<Event>)
    requires cfg.maxPackets == 0
    ensures Run(cfg, events).bucket.None? && Run(cfg, events).accepts == []
  {
    if events != [] {
      NoneAllowed(cfg, events[..|events| - 1]);
    }
  }

  // ---- For every other configuration the bound fails ----

  function Packets(at: nat, n: nat): seq<Event> {
    seq(n, i => Packet(at))
  }

  function Copies(a: Accept, n: nat): seq<Accept> {
    seq(n, i => a)
  }

  function Burst(cfg: Config, s: State, at: nat, n: nat): State {
    if n == 0 then s else Step(cfg, Burst(cfg, s, at, n - 1), Packet(at))
  }

  /** A burst within an open window is accepted as long as the counter allows. */
  lemma {:induction false} BurstInWindow(cfg: Config, s: State, at: nat, n: nat)
    requires s.bucket.Some? && s.starts != [] && 0 < n && s.bucket.value.counter + n <= cfg.maxPackets
    requires s.bucket.value.start <= Secs(at) <= s.bucket.value.start + cfg.period
    ensures Burst(cfg, s, at, n) ==
            State(Some(s.bucket.value.(counter := s.bucket.value.counter + n)), Secs(at) + TTL_SECS, s.starts,
                  s.accepts + Copies(Accept(at, |s.starts| - 1), n))
  {
    var a := Accept(at, |s.starts| - 1);
    if n == 1 {
      assert Burst(cfg, s, at, 0) == s;
      assert s.accepts + [a] == s.accepts + Copies(a, 1);
    } else {
      BurstInWindow(cfg, s, at, n - 1);
      assert s.accepts + Copies(a, n - 1) + [a] == s.accepts + Copies(a, n);
    }
  }

  /** A burst of max_packets that opens a window is accepted whole. */
  lemma BurstOpens(cfg: Config, s: State, at: nat)
    requires cfg.maxPackets > 0
    requires s.bucket.None? || Secs(at) > s.bucket.value.start + cfg.period
    ensures Burst(cfg, s, at, cfg.maxPackets) ==
            State(Some(Bucket(cfg.maxPackets, Secs(at))), Secs(at) + TTL_SECS, s.starts + [Secs(at)],
                  s.accepts + Copies(Accept(at, |s.starts|), cfg.maxPackets))
  {
    var s1 := Step(cfg, s, Packet(at));
    var a := Accept(at, |s.starts|);
    assert s1 == State(Some(Bucket(1, Secs(at))), Secs(at) + TTL_SECS, s.starts + [Secs(at)], s.accepts + [a]);
    if cfg.maxPackets > 1 {
      BurstInWindow(cfg, s1, at, cfg.maxPackets - 1);
    }
    BurstSplit(cfg, s, at, cfg.maxPackets - 1);
    assert s.accepts + [a] + Copies(a, cfg.maxPackets - 1) == s.accepts + Copies(a, cfg.maxPackets);
  }

  lemma {:induction false} BurstSplit(cfg: Config, s: State, at: nat, n: nat)
    ensures Burst(cfg, s, at, n + 1) == Burst(cfg, Step(cfg, s, Packet(at)), at, n)
  {
    if n == 0 {
      assert Burst(cfg, s, at, 0) == s;
    } else {
      BurstSplit(cfg, s, at, n - 1);
    }
  }

  lemma {:induction false} SpanOfCopies(accepts: seq<Accept>, a: Accept, n: nat, from: nat, until: nat)
    ensures InSpan(accepts + Copies(a, n), from, until) ==
            InSpan(accepts, from, until) + if from <= a.at <= until then n else 0
  {
    var all := accepts + Copies(a, n);
    if n == 0 {
      assert all == accepts;
    } else {
      SpanOfCopies(accepts, a, n - 1, from, until);
      assert all[..|all| - 1] == accepts + Copies(a, n - 1) && all[|all| - 1] == a;
    }
  }

  // The clean-up task ticks every sixty seconds; a tick may come late, here by at most a nanosecond.

  const POLL: nat := 60 * SECOND
  const LATENESS: nat := 1

  function Sweeps(events: seq<Event>): nat {
    if events == [] then 0 else Sweeps(events[..|events| - 1]) + if events[|events| - 1].Prune? then 1 else 0
  }

  function Due(phase: nat, tick: nat): nat {
    phase + tick * POLL
  }

  /** The prunes are exactly the ticks from `phase` on, none early, none later than the lateness. */
  ghost predicate OnSchedule(events: seq<Event>, phase: nat) {
    if events == [] then phase <= POLL
    else
      var n := |events| - 1;
      var due := Due(phase, Sweeps(events[..n]));
      OnSchedule(events[..n], phase) && events[n].at <= due + LATENESS && (events[n].Prune? ==> due <= events[n].at)
  }

  /** The events are in order, on schedule, over at `clock` after so many sweeps, and lead to `s`. */
  ghost predicate Gives(cfg: Config, events: seq<Event>, phase: nat, clock: nat, sweeps: nat, s: State) {
    && Ordered(events) && (forall e :: e in events ==> e.at <= clock)
    && OnSchedule(events, phase) && Sweeps(events) == sweeps && Run(cfg, events) == s
  }

  lemma ThenOne(cfg: Config, events: seq<Event>, phase: nat, clock: nat, sweeps: nat, s: State, e: Event)
    requires Gives(cfg, events, phase, clock, sweeps, s) && clock <= e.at <= Due(phase, sweeps) + LATENESS
    requires e.Prune? ==> Due(phase, sweeps) <= e.at
    ensures Gives(cfg, events + [e], phase, e.at, sweeps + if e.Prune? then 1 else 0, Step(cfg, s, e))
  {
    hide Ordered, Step, Due;
    assert (events + [e])[..|events|] == events;
    OrderedLast(events, e, clock);
  }

  lemma {:induction false} ThenPackets(cfg: Config, events: seq<Event>, phase: nat, clock: nat, sweeps: nat,
                                       s: State, at: nat, n: nat)
    requires Gives(cfg, events, phase, clock, sweeps, s) && clock <= at <= Due(phase, sweeps) + LATENESS
    ensures Gives(cfg, events + Packets(at, n), phase, at, sweeps, Burst(cfg, s, at, n))
  {
    hide Ordered, Step, Due, OnSchedule, Run, Sweeps;
    if n == 0 {
      assert events + Packets(at, 0) == events;
    } else {
      ThenPackets(cfg, events, phase, clock, sweeps, s, at, n - 1);
      ThenOne(cfg, events + Packets(at, n - 1), phase, at, sweeps, Burst(cfg, s, at, n - 1), Packet(at));
      assert events + Packets(at, n) == events + Packets(at, n - 1) + [Packet(at)];
    }
  }

  lemma NothingGiven(cfg: Config, phase: nat)
    requires phase <= POLL
    ensures Gives(cfg, [], phase, 0, 0, EMPTY)
  {}

  /** A sweep that comes too early for the bucket, or too late. */
  lemma SweepSpares(cfg: Config, s: State, at: nat)
    ensures s.expiresAt > Secs(at) ==> Step(cfg, s, Event.Prune(at)) == s
    ensures s.expiresAt <= Secs(at) ==> Step(cfg, s, Event.Prune(at)) == s.(bucket := None)
  {}

  /**
   * For every other configuration there is a run, with sweeps on schedule, that gets more than
   * twice max_packets through.
   */
  lemma ElseTheBoundFails(cfg: Config) returns (events: seq<Event>, phase: nat, from: nat)
    requires cfg.maxPackets > 0 && !Bounded(cfg)
    ensures Ordered(events) && OnSchedule(events, phase)
    ensures InSpan(Run(cfg, events).accepts, from, from + cfg.period * SECOND) > 2 * cfg.maxPackets
  {
    hide Run, InSpan, Ordered, OnSchedule, Sweeps;
    if cfg.period >= 2 * TTL_SECS {
      events := ThreeExpiries(cfg);
      phase, from := POLL, 0;
    } else {
      events := ThreeBursts(cfg);
      phase, from := (cfg.period - 59) * SECOND - 1, cfg.period * SECOND;
    }
  }

  /** Three windows, at seconds 0, 60 and 120, each ended by expiry. */
  lemma ThreeExpiries(cfg: Config) returns (events: seq<Event>)
    requires cfg.maxPackets > 0 && cfg.period >= 2 * TTL_SECS
    ensures Ordered(events) && OnSchedule(events, POLL)
    ensures InSpan(Run(cfg, events).accepts, 0, cfg.period * SECOND) > 2 * cfg.maxPackets
  {
    hide Run, InSpan, Ordered, OnSchedule, Sweeps, Step, Burst, Packets;
    var m := cfg.maxPackets;
    NothingGiven(cfg, POLL);
    var s1 := State(Some(Bucket(m, 0)), 60, [] + [0], [] + Copies(Accept(0, 0), m));
    BurstOpens(cfg, EMPTY, 0);
    ThenPackets(cfg, [], POLL, 0, 0, EMPTY, 0, m);
    events := [] + Packets(0, m);
    var s2;
    events, s2 := AfterExpiry(cfg, events, 0, 0, s1, 60);
    var s3;
    events, s3 := AfterExpiry(cfg, events, 60 * SECOND, 1, s2, 120);
    SpanOfThree([], Accept(0, 0), m, Accept(60 * SECOND, 1), Accept(120 * SECOND, 2), m, 0, cfg.period * SECOND);
  }

  /** A source that comes back once its bucket has expired is given a new window. */
  lemma AfterExpiry(cfg: Config, events: seq<Event>, clock: nat, sweeps: nat, s: State, sec: nat)
      returns (all: seq<Event>, s': State)
    requires cfg.maxPackets > 0 && Gives(cfg, events, POLL, clock, sweeps, s) && clock <= sec * SECOND
    requires s.expiresAt <= sec && sec * SECOND == Due(POLL, sweeps)
    ensures s' == State(Some(Bucket(cfg.maxPackets, sec)), sec + TTL_SECS, s.starts + [sec],
                        s.accepts + Copies(Accept(sec * SECOND, |s.starts|), cfg.maxPackets))
    ensures Gives(cfg, all, POLL, sec * SECOND, sweeps + 1, s')
  {
    hide Gives, Step, Burst, Packets, Copies;
    var at := sec * SECOND;
    assert Secs(at) == sec;
    SweepSpares(cfg, s, at);
    ThenOne(cfg, events, POLL, clock, sweeps, s, Event.Prune(at));
    var mid := s.(bucket := None);
    BurstOpens(cfg, mid, at);
    assert at <= Due(POLL, sweeps + 1);
    ThenPackets(cfg, events + [Event.Prune(at)], POLL, at, sweeps + 1, mid, at, cfg.maxPackets);
    all := events + [Event.Prune(at)] + Packets(at, cfg.maxPackets);
    s' := Burst(cfg, mid, at, cfg.maxPackets);
  }

  /**
   * A packet at second 0 and the rest of its window at second p, a window that resets it at p + 1,
   * and one after expiry at p + 61. The sweeps come a nanosecond before seconds p - 59 and p + 1,
   * which spares the bucket, and then at second p + 61, a nanosecond late.
   */
  lemma ThreeBursts(cfg: Config) returns (events: seq<Event>)
    requires cfg.maxPackets > 1 && TTL_SECS < cfg.period < 2 * TTL_SECS
    ensures Ordered(events) && OnSchedule(events, (cfg.period - 59) * SECOND - 1)
    ensures var from := cfg.period * SECOND;
            InSpan(Run(cfg, events).accepts, from, from + cfg.period * SECOND) > 2 * cfg.maxPackets
  {
    hide Run, InSpan, Ordered, OnSchedule, Sweeps, Step, Burst, Packets, Copies;
    var m, p := cfg.maxPackets, cfg.period;
    var phase, t1, t2, t3 := (p - 59) * SECOND - 1, p * SECOND, (p + 1) * SECOND, (p + 61) * SECOND;
    assert Secs(phase) == p - 60 && Secs(t1) == p && Secs(t2 - 1) == p && Secs(t2) == p + 1 && Secs(t3) == p + 61;
    NothingGiven(cfg, phase);
    var s1 := State(Some(Bucket(1, 0)), 60, [] + [0], [] + [Accept(0, 0)]);
    FirstPacket(cfg);
    ThenOne(cfg, [], phase, 0, 0, EMPTY, Packet(0));
    SweepSpares(cfg, s1, phase);
    ThenOne(cfg, [] + [Packet(0)], phase, 0, 0, s1, Event.Prune(phase));
    var e2 := [] + [Packet(0)] + [Event.Prune(phase)];
    BurstInWindow(cfg, s1, t1, m - 1);
    ThenPackets(cfg, e2, phase, phase, 1, s1, t1, m - 1);
    var s3 := Burst(cfg, s1, t1, m - 1);
    SweepSpares(cfg, s3, t2 - 1);
    ThenOne(cfg, e2 + Packets(t1, m - 1), phase, t1, 1, s3, Event.Prune(t2 - 1));
    var e4 := e2 + Packets(t1, m - 1) + [Event.Prune(t2 - 1)];
    BurstOpens(cfg, s3, t2);
    ThenPackets(cfg, e4, phase, t2 - 1, 2, s3, t2, m);
    var s5 := Burst(cfg, s3, t2, m);
    SweepSpares(cfg, s5, t3);
    ThenOne(cfg, e4 + Packets(t2, m), phase, t2, 2, s5, Event.Prune(t3));
    var e6 := e4 + Packets(t2, m) + [Event.Prune(t3)];
    BurstOpens(cfg, s5.(bucket := None), t3);
    ThenPackets(cfg, e6, phase, t3, 3, s5.(bucket := None), t3, m);
    events := e6 + Packets(t3, m);
    SpanOfThree([] + [Accept(0, 0)], Accept(t1, 0), m - 1, Accept(t2, 1), Accept(t3, 2), m, t1, t1 + t1);
  }

  lemma FirstPacket(cfg: Config)
    requires cfg.maxPackets > 0
    ensures Step(cfg, EMPTY, Packet(0)) == State(Some(Bucket(1, 0)), 60, [] + [0], [] + [Accept(0, 0)])
  {}

  /** Three bursts within the span. */
  lemma SpanOfThree(before: seq<Accept>, a: Accept, n: nat, b: Accept, c: Accept, m: nat, from: nat, until: nat)
    requires from <= a.at <= until && from <= b.at <= until && from <= c.at <= until
    ensures InSpan(before + Copies(a, n) + Copies(b, m) + Copies(c, m), from, until) >= n + m + m
  {
    hide Copies, InSpan;
    SpanOfCopies(before, a, n, from, until);
    SpanOfCopies(before + Copies(a, n), b, m, from, until);
    SpanOfCopies(before + Copies(a, n) + Copies(b, m), c, m, from, until);
  }

  // ---- The filter ----

  /** The map holds of a source what its history made of it. */
  ghost predicate Mirrors(inner: map<Address, Value<Bucket>>, a: Address, s: State) {
    && s.bucket == (if a in inner then Some(inner[a].value) else None)
    && (a in inner ==> inner[a].expiresAt == s.expiresAt)
  }

  type Histories = map<Address, seq<Event>>

  ghost function Past(cfg: Config, history: Histories, a: Address): State {
    Run(cfg, GetOr(history, a, []))
  }

  /** Every source's past is in order and not after `clock`. */
  ghost predicate Timely(history: Histories, clock: nat) {
    forall a :: a in history ==> Ordered(history[a]) && forall e :: e in history[a] ==> e.at <= clock
  }

  ghost predicate AllMirrored(cfg: Config, inner: map<Address, Value<Bucket>>, history: Histories) {
    forall a :: Mirrors(inner, a, Past(cfg, history, a))
  }

  lemma RunLast(cfg: Config, events: seq<Event>, e: Event)
    ensures Run(cfg, events + [e]) == Step(cfg, Run(cfg, events), e)
  {
    assert (events + [e])[..|events|] == events;
  }

  lemma OrderedLast(events: seq<Event>, e: Event, clock: nat)
    requires Ordered(events) && (forall x :: x in events ==> x.at <= clock) && clock <= e.at
    ensures Ordered(events + [e]) && forall x :: x in events + [e] ==> x.at <= e.at
  {
    assert forall i :: 0 <= i < |events| ==> events[i] in events;
  }

  /** One source's packet. */
  lemma PacketMirrored(cfg: Config, inner: map<Address, Value<Bucket>>, inner': map<Address, Value<Bucket>>,
                       history: Histories, clock: nat, source: Address, at: nat)
    requires AllMirrored(cfg, inner, history) && Timely(history, clock) && clock <= at
    requires var b := Acquire(cfg, if source in inner then Some(inner[source].value) else None, Secs(at)).0;
             inner' == if cfg.maxPackets == 0 then inner else inner[source := Value(b.value, Secs(at) + TTL_SECS)]
    ensures var history' := history[source := GetOr(history, source, []) + [Packet(at)]];
            && AllMirrored(cfg, inner', history') && Timely(history', at)
            && Past(cfg, history', source) == Step(cfg, Past(cfg, history, source), Packet(at))
  {
    hide Run, Ordered, Secs;
    var events := GetOr(history, source, []);
    var history' := history[source := events + [Packet(at)]];
    RunLast(cfg, events, Packet(at));
    NothingOrdered();
    OrderedLast(events, Packet(at), clock);
    forall a ensures Mirrors(inner', a, Past(cfg, history', a)) {
      assert Mirrors(inner, a, Past(cfg, history, a));
    }
  }

  lemma NothingOrdered()
    ensures Ordered([])
  {}

  /** A prune, which concerns every source. */
  lemma PruneMirrored(cfg: Config, inner: map<Address, Value<Bucket>>, history: Histories, clock: nat, at: nat)
    requires AllMirrored(cfg, inner, history) && Timely(history, clock) && clock <= at
    ensures var history' := map a | a in history :: history[a] + [Event.Prune(at)];
            var inner' := map a | a in inner && inner[a].expiresAt > Secs(at) :: inner[a];
            AllMirrored(cfg, inner', history') && Timely(history', at)
  {
    hide Run, Ordered, Secs;
    var history' := map a | a in history :: history[a] + [Event.Prune(at)];
    var inner' := map a | a in inner && inner[a].expiresAt > Secs(at) :: inner[a];
    forall a ensures Mirrors(inner', a, Past(cfg, history', a)) {
      assert Mirrors(inner, a, Past(cfg, history, a));
      if a in history {
        RunLast(cfg, history[a], Event.Prune(at));
      } else {
        EmptyPast(cfg);
      }
    }
    forall a | a in history' ensures Ordered(history'[a]) && forall e: Event :: e in history'[a] ==> e.at <= at {
      OrderedLast(history[a], Event.Prune(at), clock);
    }
  }

  lemma EmptyPast(cfg: Config)
    ensures Run(cfg, []) == EMPTY
  {}

  /** What a packet at second `now` does to its source's bucket, and when it passes. */
  ghost predicate Taken(cfg: Config, was: map<Address, Value<Bucket>>, becomes: map<Address, Value<Bucket>>,
                        source: Address, now: nat, ok: bool) {
    if cfg.maxPackets == 0 then !ok && becomes == was
    else if source !in was then ok && becomes == was[source := Value(Bucket(1, now), now + 60)]
    else
      var b := was[source].value;
      if now - b.start > cfg.period then ok && becomes == was[source := Value(Bucket(1, now), now + 60)]
      else
        && (ok <==> b.counter < cfg.maxPackets)
        && becomes == was[source := Value(Bucket(b.counter + 1, b.start), now + 60)]
  }

  class LocalRateLimit {
    const cfg: Config
    const state: TtlMap<Address, Bucket>

    /** What each source has seen, and the time of the last call. */
    ghost var history: Histories
    ghost var clock: nat

    ghost predicate Holds()
      reads this, state
    {
      state.Valid() && state.ttl == TTL_SECS * SECOND
    }

    ghost predicate Valid()
      reads this, state
    {
      Holds() && AllMirrored(cfg, state.inner, history) && Timely(history, clock)
    }

    constructor (cfg: Config)
      ensures Valid() && this.cfg == cfg && history == map[] && fresh(state)
    {
      this.cfg := cfg;
      state := new TtlMap(TTL_SECS * SECOND);
      history, clock := map[], 0;
      new;
      EmptyPast(cfg);
    }

    /** The source's bucket and expiration move as `Acquire` says; no other source is affected. */
    method Take(source: Address, now: nat) returns (ok: bool)
      requires Holds()
      modifies state
      ensures Holds()
      ensures var b := if source in old(state.inner) then Some(old(state.inner)[source].value) else None;
              var (b', accepted) := Acquire(cfg, b, Secs(now));
              && ok == accepted
              && state.inner == if cfg.maxPackets == 0 then old(state.inner)
                                else old(state.inner)[source := Value(b'.value, Secs(now) + TTL_SECS)]
      ensures Taken(cfg, old(state.inner), state.inner, source, now / SECOND, ok)
    {
      if cfg.maxPackets == 0 {
        return false;
      }
      assert Secs(now + TTL_SECS * SECOND) == Secs(now) + TTL_SECS;
      var bucket := state.Lookup(source, now);
      if bucket.Some? {
        var prev := bucket.value.counter;
        state.Assign(source, bucket.value.(counter := prev + 1));
        var nowSecs := Secs(now);
        var startNew := nowSecs - bucket.value.start > cfg.period;
        if prev >= cfg.maxPackets {
          if !startNew {
            return false;
          }
        }
        if startNew {
          state.Assign(source, Bucket(1, nowSecs));
        }
        return true;
      }
      var _ := state.Insert(source, Bucket(1, Secs(now)), now);
      return true;
    }

    /** A packet moves its source's history by one step, and is accepted when that step accepts it. */
    method AcquireToken(source: Address, now: nat) returns (ok: bool)
      requires Valid() && clock <= now
      modifies this`history, this`clock, state
      ensures Valid() && clock == now
      ensures Taken(cfg, old(state.inner), state.inner, source, now / SECOND, ok)
      ensures history == old(history)[source := GetOr(old(history), source, []) + [Packet(now)]]
      ensures ok == Acquire(cfg, Past(cfg, old(history), source).bucket, Secs(now)).1
      ensures var before, after := Past(cfg, old(history), source), Past(cfg, history, source);
              && after == Step(cfg, before, Packet(now))
              && before.accepts <= after.accepts && |after.accepts| == |before.accepts| + (if ok then 1 else 0)
              && (ok ==> after.accepts[|before.accepts|].at == now)
    {
      hide Run, Secs, Timely, Acquire;
      assert Mirrors(state.inner, source, Past(cfg, history, source));
      ok := Take(source, now);
      PacketMirrored(cfg, old(state.inner), state.inner, history, clock, source, now);
      AcceptsCounted(cfg, Past(cfg, history, source), now);
      history := history[source := GetOr(history, source, []) + [Packet(now)]];
      clock := now;
    }

    /** The background clean-up. */
    method Prune(now: nat)
      requires Valid() && clock <= now
      modifies this`history, this`clock, state
      ensures Valid() && clock == now
      ensures state.inner == map k | k in old(state.inner) && old(state.inner)[k].expiresAt > now / SECOND ::
                               old(state.inner)[k]
      ensures history == map a | a in old(history) :: old(history)[a] + [Event.Prune(now)]
    {
      hide Run, Timely;
      PruneMirrored(cfg, state.inner, history, clock, now);
      state.Prune(now);
      history := map a | a in history :: history[a] + [Event.Prune(now)];
      clock := now;
    }

    /** What the filter has let through, of any source and in any span of a period, is bounded. */
    lemma SourceIsBounded(source: Address, from: nat)
      requires Valid() && cfg.maxPackets > 0 && Bounded(cfg)
      ensures InSpan(Past(cfg, history, source).accepts, from, from + cfg.period * SECOND) <= 2 * cfg.maxPackets
    {
      hide Run, Mirrors;
      AtMostTwiceMax(cfg, GetOr(history, source, []), from);
    }
  }

  lemma AcceptsCounted(cfg: Config, s: State, at: nat)
    ensures |Step(cfg, s, Packet(at)).accepts| == |s.accepts| + if Acquire(cfg, s.bucket, Secs(at)).1 then 1 else 0
  {}

  /** A filter is made exactly when the period is at least one second. */
  method TryNew(cfg: Config) returns (filter: Option<LocalRateLimit>)
    ensures filter.Some? <==> cfg.period >= 1
    ensures filter.Some? ==> fresh(filter.value) && fresh(filter.value.state)
    ensures filter.Some? ==> filter.value.Valid() && filter.value.cfg == cfg && filter.value.history == map[]
  {
    if cfg.period < 1 {
      return None;
    }
    var made := new LocalRateLimit(cfg);
    return Some(made);
  }
}
