/**
 * ClusterUpdateBatcher (src/net/cluster.rs): each Kubernetes namespace has a producer, a queue, a
 * background task and a mutex of its own, and all of them write one locality of one cluster map.
 * The producer pushes actions and now and then resets its namespace (partial_replace); the batcher task
 * takes the queue and applies it. Each mutex covers its own namespace only. Applying a batch is two
 * steps on the shared locality, to modify it and, if that emptied it, to remove it; a reset of an
 * absent locality is two steps too, to look and to insert. All steps interleave in any order.
 */
module Batcher {
  import opened Base
  import opened Endpoints
  import opened EndpointSets
  import opened Updates

  type Namespace = string

  /** EventProcessor::metadata_source_filter. */
  predicate FromNamespace(ns: Namespace, md: Metadata) {
    Get(md.unknown, "namespace") == Some(Str(ns))
  }

  function Owned(ns: Namespace): Metadata -> bool {
    md => FromNamespace(ns, md)
  }

  /** What a producer asks for. */
  datatype Op = Act(act: Action) | Reset(servers: EndpointMap)

  datatype TaskPc = Resting | Locked | Taken(batch: seq<Action>) | Emptied | Flushed

  datatype ProducerPc =
    | Free
    | Waiting(servers: EndpointMap)                          // in partial_replace, blocked on the mutex
    | Holding(servers: EndpointMap)
    | Draining(servers: EndpointMap, batch: seq<Action>)     // took the queue, about to apply it
    | Clearing(servers: EndpointMap)                         // emptied the locality, about to remove it
    | Drained(servers: EndpointMap)                          // about to replace
    | Unfound(servers: EndpointMap)                          // found no locality, about to insert
    | Done

  datatype Holder = Nobody | Task | Producer

  datatype Local = Local(queue: seq<Action>, lock: Holder, task: TaskPc, producer: ProducerPc, issued: seq<Op>)

  const IDLE := Local([], Nobody, Resting, Free, [])

  /** `eps` is the shared locality, None when absent; `applied` records every operation that took effect. */
  datatype System = System(locals: map<Namespace, Local>, eps: Option<EndpointMap>, applied: seq<(Namespace, Op)>)

  // ---- Immediate application, the reference ----

  function Present(eps: Option<EndpointMap>): EndpointMap {
    if eps.Some? then eps.value else map[]
  }

  ghost function ApplyOp(eps: EndpointMap, ns: Namespace, op: Op): EndpointMap {
    match op
    case Act(a) => ApplyAction(eps, a)
    case Reset(servers) => PartiallyReplaced(eps, servers, Owned(ns))
  }

  /** Operations applied one by one, the moment they are issued. */
  ghost function ApplyOps(eps: EndpointMap, ops: seq<(Namespace, Op)>): EndpointMap {
    if ops == [] then eps
    else ApplyOp(ApplyOps(eps, ops[..|ops| - 1]), ops[|ops| - 1].0, ops[|ops| - 1].1)
  }

  // ---- The steps ----

  datatype Step =
    | Push(act: Action) | StartReset(servers: EndpointMap)
    | ProducerLock | ProducerTake | ProducerModify | ProducerRemove | ProducerLook | ProducerInsert | ProducerUnlock
    | TaskLock | TaskTake | TaskModify | TaskRemove | TaskUnlock

  /** The batcher task's try_lock fails silently while the mutex is held; the producer's lock blocks. */
  predicate Enabled(b: Local, step: Step) {
    match step
    case Push(_) => b.producer.Free?
    case StartReset(_) => b.producer.Free?
    case ProducerLock => b.producer.Waiting? && b.lock.Nobody?
    case ProducerTake => b.producer.Holding?
    case ProducerModify => b.producer.Draining?
    case ProducerRemove => b.producer.Clearing?
    case ProducerLook => b.producer.Drained?
    case ProducerInsert => b.producer.Unfound?
    case ProducerUnlock => b.producer.Done?
    case TaskLock => b.task.Resting? && b.lock.Nobody?
    case TaskTake => b.task.Locked?
    case TaskModify => b.task.Taken?
    case TaskRemove => b.task.Emptied?
    case TaskUnlock => b.task.Flushed?
  }

  /** flush skips an empty batch; batch_modify notes whether it left the locality empty. */
  ghost function Modified(eps: Option<EndpointMap>, batch: seq<Action>): Option<EndpointMap> {
    if batch == [] then eps else Some(ApplyBatch(Present(eps), batch))
  }

  ghost predicate Empties(eps: Option<EndpointMap>, batch: seq<Action>) {
    batch != [] && ApplyBatch(Present(eps), batch) == map[]
  }

  ghost function StepLocal(b: Local, eps: Option<EndpointMap>, step: Step): Local
    requires Enabled(b, step)
  {
    match step
    case Push(a) => b.(queue := b.queue + [a], issued := b.issued + [Act(a)])
    case StartReset(s) => b.(producer := Waiting(s), issued := b.issued + [Reset(s)])
    case ProducerLock => b.(producer := Holding(b.producer.servers), lock := Producer)
    case ProducerTake => b.(producer := Draining(b.producer.servers, b.queue), queue := [])
    case ProducerModify =>
      var servers := b.producer.servers;
      b.(producer := if Empties(eps, b.producer.batch) then Clearing(servers) else Drained(servers))
    case ProducerRemove => b.(producer := Drained(b.producer.servers))
    case ProducerLook => b.(producer := if eps.None? then Unfound(b.producer.servers) else Done)
    case ProducerInsert => b.(producer := Done)
    case ProducerUnlock => b.(producer := Free, lock := Nobody)
    case TaskLock => b.(task := Locked, lock := Task)
    case TaskTake => b.(task := Taken(b.queue), queue := [])
    case TaskModify => b.(task := if Empties(eps, b.task.batch) then Emptied else Flushed)
    case TaskRemove => b.(task := Flushed)
    case TaskUnlock => b.(task := Resting, lock := Nobody)
  }

  /** The operations a step makes effective. */
  function Effect(b: Local, eps: Option<EndpointMap>, step: Step): seq<Op>
    requires Enabled(b, step)
  {
    match step
    case ProducerModify => Acts(b.producer.batch)
    case ProducerLook => if eps.None? then [] else [Reset(b.producer.servers)]
    case ProducerInsert => [Reset(b.producer.servers)]
    case TaskModify => Acts(b.task.batch)
    case _ => []
  }

  /** A removal takes whatever is there, and an insertion overwrites it. */
  ghost function StepShared(eps: Option<EndpointMap>, ns: Namespace, b: Local, step: Step): Option<EndpointMap>
    requires Enabled(b, step)
  {
    match step
    case ProducerModify => Modified(eps, b.producer.batch)
    case ProducerRemove => None
    case ProducerLook => if eps.None? then None else Some(PartiallyReplaced(eps.value, b.producer.servers, Owned(ns)))
    case ProducerInsert => Some(b.producer.servers)
    case TaskModify => Modified(eps, b.task.batch)
    case TaskRemove => None
    case _ => eps
  }

  function Acts(batch: seq<Action>): seq<Op> {
    seq(|batch|, i requires 0 <= i < |batch| => Act(batch[i]))
  }

  function Tag(ns: Namespace, ops: seq<Op>): seq<(Namespace, Op)> {
    seq(|ops|, i requires 0 <= i < |ops| => (ns, ops[i]))
  }

  ghost predicate Fires(s: System, x: (Namespace, Step)) {
    x.0 in s.locals && Enabled(s.locals[x.0], x.1)
  }

  /** A step that is not enabled changes nothing. */
  ghost function Fire(s: System, x: (Namespace, Step)): System {
    if Fires(s, x) then
      var b := s.locals[x.0];
      System(s.locals[x.0 := StepLocal(b, s.eps, x.1)], StepShared(s.eps, x.0, b, x.1),
        s.applied + Tag(x.0, Effect(b, s.eps, x.1)))
    else s
  }

  ghost function After(s: System, steps: seq<(Namespace, Step)>): System {
    if steps == [] then s else Fire(After(s, steps[..|steps| - 1]), steps[|steps| - 1])
  }

  ghost predicate Initial(s: System) {
    s.applied == [] && forall ns :: ns in s.locals ==> s.locals[ns] == IDLE
  }

  // ---- Each batcher keeps its producer's order ----

  function Project(ops: seq<(Namespace, Op)>, ns: Namespace): seq<Op> {
    if ops == [] then []
    else
      var last := ops[|ops| - 1];
      Project(ops[..|ops| - 1], ns) + if last.0 == ns then [last.1] else []
  }

  /** Taken from the queue, not yet applied. */
  function InFlight(b: Local): seq<Op> {
    if b.task.Taken? then Acts(b.task.batch)
    else if b.producer.Draining? then Acts(b.producer.batch)
    else []
  }

  /** Issued but not yet effective reset. */
  function Pending(b: Local): seq<Op> {
    if b.producer.Free? || b.producer.Done? then [] else [Reset(b.producer.servers)]
  }

  /** The mutex is held by whoever is past its lock step, and a draining producer has emptied the queue. */
  predicate Exclusion(b: Local) {
    && (b.lock.Task? <==> !b.task.Resting?)
    && (b.lock.Producer? <==> !b.producer.Free? && !b.producer.Waiting?)
    && (b.lock.Producer? && !b.producer.Holding? ==> b.queue == [])
  }

  /** Applied, then in flight, then queued, then pending: together the producer's operations in order. */
  predicate InOrder(b: Local, done: seq<Op>) {
    b.issued == done + InFlight(b) + Acts(b.queue) + Pending(b)
  }

  ghost predicate Orderly(s: System) {
    forall ns :: ns in s.locals ==> Exclusion(s.locals[ns]) && InOrder(s.locals[ns], Project(s.applied, ns))
  }

  lemma LocalStep(b: Local, eps: Option<EndpointMap>, done: seq<Op>, step: Step)
    requires Exclusion(b) && InOrder(b, done) && Enabled(b, step)
    ensures Exclusion(StepLocal(b, eps, step))
    ensures InOrder(StepLocal(b, eps, step), done + Effect(b, eps, step))
  {
    hide InOrder, InFlight, Pending, Acts;
    LocalOrder(b, eps, done, step);
  }

  lemma LocalOrder(b: Local, eps: Option<EndpointMap>, done: seq<Op>, step: Step)
    requires Exclusion(b) && InOrder(b, done) && Enabled(b, step)
    ensures InOrder(StepLocal(b, eps, step), done + Effect(b, eps, step))
  {
    hide Empties, Acts, InOrder;
    var b' := StepLocal(b, eps, step);
    var f, q, p := InFlight(b), Acts(b.queue), Pending(b);
    ActsParts(b.queue, if step.Push? then [step.act] else []);
    assert b.issued == done + f + q + p by { Spelled(b, done); }
    assert b'.issued == done + Effect(b, eps, step) + InFlight(b') + Acts(b'.queue) + Pending(b') by {
      match step
      case Push(a) => assert InFlight(b') == f && p == [];
      case StartReset(_) => assert InFlight(b') == f && p == [];
      case ProducerTake => assert f == [];
      case TaskTake => assert f == [];
      case ProducerModify => assert InFlight(b') == [] && Pending(b') == p;
      case TaskModify => assert InFlight(b') == [] && Pending(b') == p;
      case _ => assert InFlight(b') == f && done + [] == done;
    }
    Spelled(b', done + Effect(b, eps, step));
  }

  lemma Spelled(b: Local, done: seq<Op>)
    ensures InOrder(b, done) <==> b.issued == done + InFlight(b) + Acts(b.queue) + Pending(b)
  {}

  lemma ActsParts(a: seq<Action>, b: seq<Action>)
    ensures Acts([]) == [] && Acts(a + b) == Acts(a) + Acts(b)
    ensures forall x :: Acts([x]) == [Act(x)]
  {}

  lemma {:induction false} ProjectTag(ops: seq<(Namespace, Op)>, more: seq<Op>, who: Namespace, ns: Namespace)
    ensures Project(ops + Tag(who, more), ns) == Project(ops, ns) + if who == ns then more else []
  {
    if more == [] {
      assert ops + Tag(who, more) == ops;
    } else {
      var n := |more| - 1;
      ProjectTag(ops, more[..n], who, ns);
      var all := ops + Tag(who, more);
      assert all[..|all| - 1] == ops + Tag(who, more[..n]);
      assert all[|all| - 1] == (who, more[n]);
      assert more == more[..n] + [more[n]];
    }
  }

  lemma FireKeepsOrder(s: System, x: (Namespace, Step))
    requires Orderly(s)
    ensures Orderly(Fire(s, x))
  {
    hide Enabled, StepLocal, Effect, StepShared, Exclusion, InOrder, Project;
    if Fires(s, x) {
      var (ns, step) := x;
      var b, s' := s.locals[ns], Fire(s, x);
      forall m | m in s'.locals ensures Exclusion(s'.locals[m]) && InOrder(s'.locals[m], Project(s'.applied, m)) {
        ProjectTag(s.applied, Effect(b, s.eps, step), ns, m);
        if m == ns {
          LocalStep(b, s.eps, Project(s.applied, ns), step);
        } else {
          assert Project(s.applied, m) + [] == Project(s.applied, m);
        }
      }
    }
  }

  /** Whatever the interleaving, each producer's operations take effect in the order it issued them. */
  lemma {:induction false} RunKeepsOrder(s: System, steps: seq<(Namespace, Step)>)
    requires Initial(s)
    ensures Orderly(After(s, steps))
    ensures After(s, steps).locals.Keys == s.locals.Keys
  {
    hide Exclusion, InOrder, StepLocal, StepShared, Effect, Enabled, Orderly;
    if steps == [] {
      InitialOrder(s);
    } else {
      var n := |steps| - 1;
      RunKeepsOrder(s, steps[..n]);
      FireKeepsOrder(After(s, steps[..n]), steps[n]);
    }
  }

  lemma InitialOrder(s: System)
    requires Initial(s)
    ensures Orderly(s)
  {}

  /**
   * When a reset has taken effect, every operation its producer issued before it has too, and
   * earlier: nothing pushed before an InitDone can land after its replace.
   */
  lemma ResetComesLast(s: System, ns: Namespace, step: Step)
    requires Orderly(s) && Fires(s, (ns, step))
    requires step.ProducerInsert? || (step.ProducerLook? && s.eps.Some?)
    ensures var s' := Fire(s, (ns, step));
            && Project(s'.applied, ns) == s.locals[ns].issued == s'.locals[ns].issued
            && s'.locals[ns].queue == [] && InFlight(s'.locals[ns]) == []
            && s'.applied == s.applied + [(ns, Reset(s.locals[ns].producer.servers))]
  {
    hide Project;
    var b := s.locals[ns];
    ProjectTag(s.applied, [Reset(b.producer.servers)], ns, ns);
    assert Acts([]) == [] && Tag(ns, [Reset(b.producer.servers)]) == [(ns, Reset(b.producer.servers))];
  }

  // ---- When the shared endpoints follow ----

  /** The endpoints are those of the effective operations, applied one by one. */
  ghost predicate Linear(start: EndpointMap, s: System) {
    Present(s.eps) == ApplyOps(start, s.applied)
  }

  /**
   * The steps that lose nothing: a removal must find the locality still empty, and an insertion
   * must find nothing but its namespace's own endpoints and addresses it brings itself.
   */
  ghost predicate Harmless(s: System, x: (Namespace, Step)) {
    Fires(s, x) ==>
      match x.1
      case ProducerRemove => Present(s.eps) == map[]
      case TaskRemove => Present(s.eps) == map[]
      case ProducerInsert =>
        forall a :: a in Present(s.eps) ==> FromNamespace(x.0, Present(s.eps)[a]) || a in s.locals[x.0].producer.servers
      case _ => true
  }

  lemma {:induction false} ApplyOpsActs(eps: EndpointMap, ops: seq<(Namespace, Op)>, ns: Namespace, batch: seq<Action>)
    ensures ApplyOps(eps, ops + Tag(ns, Acts(batch))) == ApplyBatch(ApplyOps(eps, ops), batch)
  {
    if batch == [] {
      assert ops + Tag(ns, Acts(batch)) == ops;
    } else {
      var n := |batch| - 1;
      ApplyOpsActs(eps, ops, ns, batch[..n]);
      var all := ops + Tag(ns, Acts(batch));
      assert all[..|all| - 1] == ops + Tag(ns, Acts(batch[..n]));
      assert all[|all| - 1] == (ns, Act(batch[n]));
    }
  }

  lemma ApplyOpsReset(eps: EndpointMap, ops: seq<(Namespace, Op)>, ns: Namespace, servers: EndpointMap)
    ensures ApplyOps(eps, ops + Tag(ns, [Reset(servers)])) == PartiallyReplaced(ApplyOps(eps, ops), servers, Owned(ns))
  {
    var all := ops + Tag(ns, [Reset(servers)]);
    assert all[..|all| - 1] == ops && all[|all| - 1] == (ns, Reset(servers));
  }

  /** Overwriting equals a reset exactly when everything that goes is the namespace's own or replaced. */
  lemma OverwriteIsReset(eps: EndpointMap, servers: EndpointMap, ns: Namespace)
    ensures servers == PartiallyReplaced(eps, servers, Owned(ns)) <==>
            forall a :: a in eps ==> FromNamespace(ns, eps[a]) || a in servers
  {
    if exists a :: a in eps && !FromNamespace(ns, eps[a]) && a !in servers {
      var a :| a in eps && !FromNamespace(ns, eps[a]) && a !in servers;
      assert a in PartiallyReplaced(eps, servers, Owned(ns));
    }
  }

  /** One step keeps the shared endpoints linear exactly when it is harmless. */
  lemma FireIsLinear(start: EndpointMap, s: System, x: (Namespace, Step))
    requires Linear(start, s)
    ensures Linear(start, Fire(s, x)) <==> Harmless(s, x)
  {
    hide ApplyOps, Acts, PartiallyReplaced, StepLocal;
    if Fires(s, x) {
      var (ns, step) := x;
      var b := s.locals[ns];
      match step
      case ProducerModify => ApplyOpsActs(start, s.applied, ns, b.producer.batch);
      case TaskModify => ApplyOpsActs(start, s.applied, ns, b.task.batch);
      case ProducerLook =>
        ApplyOpsReset(start, s.applied, ns, b.producer.servers);
        assert s.applied + Tag(ns, []) == s.applied;
      case ProducerInsert =>
        ApplyOpsReset(start, s.applied, ns, b.producer.servers);
        OverwriteIsReset(Present(s.eps), b.producer.servers, ns);
      case _ => assert s.applied + Tag(ns, []) == s.applied;
    }
  }

  ghost predicate AllHarmless(s: System, steps: seq<(Namespace, Step)>) {
    forall i :: 0 <= i < |steps| ==> Harmless(After(s, steps[..i]), steps[i])
  }

  ghost predicate AlwaysLinear(s: System, steps: seq<(Namespace, Step)>) {
    forall i :: 0 <= i <= |steps| ==> Linear(Present(s.eps), After(s, steps[..i]))
  }

  /**
   * Linearizability: under any interleaving of any number of batchers, the shared endpoints are,
   * at every moment, those of applying the effective operations one by one if and only if every
   * step was harmless.
   */
  lemma {:induction false} BatchersAreLinearizable(s: System, steps: seq<(Namespace, Step)>)
    requires Initial(s)
    ensures AlwaysLinear(s, steps) <==> AllHarmless(s, steps)
  {
    hide Harmless, Linear, Fire;
    if steps == [] {
      InitialLinear(s);
    } else {
      var n := |steps| - 1;
      BatchersAreLinearizable(s, steps[..n]);
      assert forall i :: 0 <= i <= n ==> steps[..n][..i] == steps[..i];
      assert forall i :: 0 <= i < n ==> steps[..n][i] == steps[i];
      assert steps[..n + 1] == steps;
      SplitLast(s, steps, n);
      if AlwaysLinear(s, steps[..n]) {
        assert Linear(Present(s.eps), After(s, steps[..n][..n]));
        FireIsLinear(Present(s.eps), After(s, steps[..n]), steps[n]);
      }
    }
  }

  lemma SplitLast(s: System, steps: seq<(Namespace, Step)>, n: nat)
    requires |steps| == n + 1
    ensures AlwaysLinear(s, steps) <==> AlwaysLinear(s, steps[..n]) && Linear(Present(s.eps), After(s, steps))
    ensures AllHarmless(s, steps) <==> AllHarmless(s, steps[..n]) && Harmless(After(s, steps[..n]), steps[n])
  {
    hide Harmless, Linear, Fire, After;
    assert forall i :: 0 <= i <= n ==> steps[..n][..i] == steps[..i];
    assert steps[..n + 1] == steps;
  }

  lemma InitialLinear(s: System)
    requires Initial(s)
    ensures AlwaysLinear(s, [])
  {}

  // ---- Runs in which nothing is lost ----

  /** Between emptying and removing the locality, or between finding none and inserting one. */
  predicate Exposed(b: Local) {
    b.task.Emptied? || b.producer.Clearing? || b.producer.Unfound?
  }

  /** A step that changes the shared endpoints comes while no other namespace is exposed. */
  ghost predicate Alone(s: System, x: (Namespace, Step)) {
    Fire(s, x).eps != s.eps ==> forall m :: m in s.locals && m != x.0 ==> !Exposed(s.locals[m])
  }

  ghost predicate Undisturbed(s: System, steps: seq<(Namespace, Step)>) {
    forall i :: 0 <= i < |steps| ==> Alone(After(s, steps[..i]), steps[i])
  }

  /** While a namespace is exposed, there is nothing to lose. */
  ghost predicate NothingExposed(s: System) {
    forall m :: m in s.locals && Exposed(s.locals[m]) ==> Present(s.eps) == map[]
  }

  lemma AloneIsHarmless(s: System, x: (Namespace, Step))
    requires Orderly(s) && NothingExposed(s) && Alone(s, x)
    ensures Harmless(s, x) && NothingExposed(Fire(s, x))
  {
    hide InOrder, Effect, Tag, Project, ApplyBatch, PartiallyReplaced;
  }

  /**
   * If no other namespace's change falls between the two halves of any removal or insertion, every
   * step is harmless.
   */
  lemma {:induction false} UndisturbedIsHarmless(s: System, steps: seq<(Namespace, Step)>)
    requires Initial(s) && Undisturbed(s, steps)
    ensures AllHarmless(s, steps) && NothingExposed(After(s, steps))
  {
    hide Harmless, Alone, Orderly, NothingExposed, Fire;
    if steps == [] {
      InitialUnexposed(s);
    } else {
      var n := |steps| - 1;
      assert forall i :: 0 <= i <= n ==> steps[..n][..i] == steps[..i];
      UndisturbedIsHarmless(s, steps[..n]);
      RunKeepsOrder(s, steps[..n]);
      AloneIsHarmless(After(s, steps[..n]), steps[n]);
      SplitLast(s, steps, n);
    }
  }

  lemma InitialUnexposed(s: System)
    requires Initial(s)
    ensures NothingExposed(s)
  {}

  /** A single batcher loses nothing, whatever its producer and its task do. */
  lemma OneBatcherIsLinearizable(s: System, steps: seq<(Namespace, Step)>, ns: Namespace)
    requires Initial(s) && s.locals.Keys == {ns}
    ensures AlwaysLinear(s, steps)
  {
    hide AllHarmless, AlwaysLinear, StepShared, StepLocal, Effect, Orderly;
    forall i | 0 <= i < |steps| ensures Alone(After(s, steps[..i]), steps[i]) {
      RunKeepsOrder(s, steps[..i]);
    }
    UndisturbedIsHarmless(s, steps);
    BatchersAreLinearizable(s, steps);
  }

  /** A batcher at rest: nothing issued is still to take effect. */
  predicate Quiet(b: Local) {
    b.queue == [] && InFlight(b) == [] && Pending(b) == [] && !Exposed(b)
  }

  ghost predicate AtRest(s: System) {
    forall ns :: ns in s.locals ==> Quiet(s.locals[ns])
  }

  /**
   * Once every batcher is at rest, the endpoints are those of immediate application, in an order
   * each producer agrees with.
   */
  lemma QuietMeansApplied(s: System, steps: seq<(Namespace, Step)>)
    requires Initial(s) && AllHarmless(s, steps) && AtRest(After(s, steps))
    ensures var s' := After(s, steps);
            && Present(s'.eps) == ApplyOps(Present(s.eps), s'.applied)
            && forall ns :: ns in s'.locals ==> Project(s'.applied, ns) == s'.locals[ns].issued
  {
    hide AllHarmless, After, ApplyOps, Project;
    BatchersAreLinearizable(s, steps);
    RunKeepsOrder(s, steps);
    assert steps[..|steps|] == steps;
    var s' := After(s, steps);
    assert Linear(Present(s.eps), s');
    forall ns | ns in s'.locals ensures Project(s'.applied, ns) == s'.locals[ns].issued {
      var b := s'.locals[ns];
      assert Acts([]) == [];
      assert Project(s'.applied, ns) + InFlight(b) + Acts(b.queue) + Pending(b) == Project(s'.applied, ns);
    }
  }

  // ---- The running count ----

  /** What a step adds to num_endpoints: an insertion its own size, every other step the change in size. */
  ghost function Gain(s: System, x: (Namespace, Step)): int {
    if Fires(s, x) && x.1.ProducerInsert? then |s.locals[x.0].producer.servers|
    else |Present(Fire(s, x).eps)| - |Present(s.eps)|
  }

  ghost function Count(s: System, steps: seq<(Namespace, Step)>): int {
    if steps == [] then |Present(s.eps)|
    else
      var n := |steps| - 1;
      Count(s, steps[..n]) + Gain(After(s, steps[..n]), steps[n])
  }

  /** How many endpoints an insertion overwrites. */
  ghost function Overwrites(s: System, x: (Namespace, Step)): nat {
    if Fires(s, x) && x.1.ProducerInsert? then |Present(s.eps)| else 0
  }

  ghost function Overwritten(s: System, steps: seq<(Namespace, Step)>): nat {
    if steps == [] then 0
    else
      var n := |steps| - 1;
      Overwritten(s, steps[..n]) + Overwrites(After(s, steps[..n]), steps[n])
  }

  /** In every run the count is the number of endpoints plus all that insertions overwrote. */
  lemma {:induction false} CountDrifts(s: System, steps: seq<(Namespace, Step)>)
    ensures Count(s, steps) == |Present(After(s, steps).eps)| + Overwritten(s, steps)
  {
    hide StepLocal, Effect, Modified, PartiallyReplaced;
    if steps != [] {
      CountDrifts(s, steps[..|steps| - 1]);
    }
  }

  ghost predicate NeverOverwrites(s: System, steps: seq<(Namespace, Step)>) {
    forall i :: 0 <= i < |steps| ==> Overwrites(After(s, steps[..i]), steps[i]) == 0
  }

  /** The count is right exactly when no insertion ever overwrote anything; an excess is never made up. */
  lemma CountIsTotal(s: System, steps: seq<(Namespace, Step)>)
    ensures Count(s, steps) == |Present(After(s, steps).eps)| <==> NeverOverwrites(s, steps)
  {
    hide Count, After, Overwritten, Overwrites;
    CountDrifts(s, steps);
    NothingOverwritten(s, steps);
  }

  lemma {:induction false} NothingOverwritten(s: System, steps: seq<(Namespace, Step)>)
    ensures Overwritten(s, steps) == 0 <==> NeverOverwrites(s, steps)
  {
    hide Overwrites, Fire;
    if steps != [] {
      var n := |steps| - 1;
      NothingOverwritten(s, steps[..n]);
      assert forall i :: 0 <= i < n ==> steps[..n][..i] == steps[..i] && steps[..n][i] == steps[i];
    }
  }

  // ---- Runs that lose endpoints ----

  /** `ops` merges what the producers issued, each in its own order. */
  ghost predicate Merges(ops: seq<(Namespace, Op)>, s: System) {
    && (forall x :: x in ops ==> x.0 in s.locals)
    && (forall ns :: ns in s.locals ==> Project(ops, ns) == s.locals[ns].issued)
  }

  /** No order of the issued operations has this outcome. */
  ghost predicate Inexplicable(start: EndpointMap, s: System) {
    forall ops :: Merges(ops, s) ==> ApplyOps(start, ops) != Present(s.eps)
  }

  lemma {:induction false} InProjection(ops: seq<(Namespace, Op)>, ns: Namespace, op: Op)
    ensures op in Project(ops, ns) <==> (ns, op) in ops
  {
    if ops != [] {
      var n := |ops| - 1;
      InProjection(ops[..n], ns, op);
      assert ops == ops[..n] + [ops[n]];
    }
  }

  ghost predicate Puts(x: (Namespace, Op), a: Address, md: Metadata) {
    forall eps :: Get(ApplyOp(eps, x.0, x.1), a) == Some(md)
  }

  ghost predicate Protects(x: (Namespace, Op), a: Address, md: Metadata) {
    forall eps :: Get(eps, a) == Some(md) ==> Get(ApplyOp(eps, x.0, x.1), a) == Some(md)
  }

  lemma {:induction false} PutStays(start: EndpointMap, ops: seq<(Namespace, Op)>, put: (Namespace, Op), a: Address,
                                    md: Metadata)
    requires put in ops && Puts(put, a, md) && forall x :: x in ops ==> x == put || Protects(x, a, md)
    ensures Get(ApplyOps(start, ops), a) == Some(md)
  {
    hide ApplyOp;
    var n := |ops| - 1;
    assert ops[n] in ops;
    if ops[n] != put {
      assert ops == ops[..n] + [ops[n]];
      PutStays(start, ops[..n], put, a, md);
    }
  }

  /** Each of two producers issued one operation, and one of the two endpoints put is missing. */
  lemma LostIsInexplicable(start: EndpointMap, s: System, put: (Namespace, Op), other: (Namespace, Op), a: Address,
                           md: Metadata)
    requires s.locals.Keys == {put.0, other.0} && put.0 != other.0
    requires s.locals[put.0].issued == [put.1] && s.locals[other.0].issued == [other.1]
    requires Puts(put, a, md) && Protects(other, a, md) && a !in Present(s.eps)
    ensures Inexplicable(start, s)
  {
    hide ApplyOps, Puts, Protects;
    forall ops | Merges(ops, s) ensures ApplyOps(start, ops) != Present(s.eps) {
      InProjection(ops, put.0, put.1);
      forall x | x in ops ensures x == put || x == other {
        InProjection(ops, x.0, x.1);
        assert x == (x.0, x.1);
      }
      PutStays(start, ops, put, a, md);
    }
  }

  lemma {:induction false} AfterJoin(s: System, first: seq<(Namespace, Step)>, then_: seq<(Namespace, Step)>)
    ensures After(s, first + then_) == After(After(s, first), then_)
  {
    hide Fire;
    if then_ == [] {
      assert first + then_ == first;
    } else {
      var n := |then_| - 1;
      AfterJoin(s, first, then_[..n]);
      var all := first + then_;
      assert all[..|all| - 1] == first + then_[..n] && all[|all| - 1] == then_[n];
    }
  }

  lemma AfterOne(s: System, x: (Namespace, Step))
    ensures After(s, [x]) == Fire(s, x)
  {
    assert [x][..0] == [];
  }

  function At(s: System, ns: Namespace, b: Local): System {
    s.(locals := s.locals[ns := b])
  }

  function Issued(s: System, ns: Namespace): seq<Op> {
    if ns in s.locals then s.locals[ns].issued else []
  }

  /** A step that does not concern the shared endpoints. */
  lemma Moves(s: System, ns: Namespace, b: Local, step: Step)
    requires Enabled(b, step) && Effect(b, s.eps, step) == [] && StepShared(s.eps, ns, b, step) == s.eps
    ensures Fire(At(s, ns, b), (ns, step)) == At(s, ns, StepLocal(b, s.eps, step))
  {
    hide StepLocal, Effect, StepShared, Enabled;
    assert s.applied + Tag(ns, []) == s.applied;
    assert s.locals[ns := b][ns := StepLocal(b, s.eps, step)] == s.locals[ns := StepLocal(b, s.eps, step)];
  }

  lemma AfterNext(s: System, steps: seq<(Namespace, Step)>, mid: System, x: (Namespace, Step)) returns (s': System)
    requires After(s, steps) == mid
    ensures s' == Fire(mid, x) && After(s, steps + [x]) == s'
  {
    AfterOne(mid, x);
    AfterJoin(s, steps, [x]);
    s' := Fire(mid, x);
  }

  function TakeSteps(ns: Namespace, act: Action): seq<(Namespace, Step)> {
    [] + [(ns, Push(act))] + [(ns, TaskLock)] + [(ns, TaskTake)]
  }

  lemma BatchTaken(s: System, ns: Namespace, act: Action)
    requires Get(s.locals, ns) == Some(IDLE)
    ensures After(s, TakeSteps(ns, act)) == At(s, ns, Local([], Task, Taken([act]), Free, [Act(act)]))
  {
    hide Fire, After;
    assert At(s, ns, IDLE) == s;
    Moves(s, ns, IDLE, Push(act));
    var b1 := Local([act], Nobody, Resting, Free, [Act(act)]);
    assert StepLocal(IDLE, s.eps, Push(act)) == b1 by { assert [] + [act] == [act] && [] + [Act(act)] == [Act(act)]; }
    Moves(s, ns, b1, TaskLock);
    Moves(s, ns, b1.(task := Locked, lock := Task), TaskTake);
    assert After(s, []) == s by { AfterNone(s); }
    var s1 := AfterNext(s, [], s, (ns, Push(act)));
    var s2 := AfterNext(s, [] + [(ns, Push(act))], s1, (ns, TaskLock));
    var s3 := AfterNext(s, [] + [(ns, Push(act))] + [(ns, TaskLock)], s2, (ns, TaskTake));
  }

  lemma AfterNone(s: System)
    ensures After(s, []) == s
  {}

  /**
   * One namespace deletes the last endpoint; before it removes the locality it left empty, the
   * other puts an endpoint there, which the removal takes along.
   */
  lemma RemovalLosesStranger(mine: Namespace, theirs: Namespace, gone: Endpoint, e: Endpoint)
      returns (s: System, steps: seq<(Namespace, Step)>)
    requires mine != theirs && gone.address != e.address
    ensures Initial(s) && s.locals.Keys == {mine, theirs} && s.eps == Some(map[gone.address := gone.metadata])
    ensures var s' := After(s, steps);
            && AtRest(s') && Present(s'.eps) == map[]
            && Issued(s', mine) == [Act(RemoveByEndpoint(gone))] && Issued(s', theirs) == [Act(Upsert(e))]
            && Inexplicable(Present(s.eps), s')
  {
    var start: EndpointMap := map[gone.address := gone.metadata];
    s := System(map[mine := IDLE, theirs := IDLE], Some(start), []);
    var remove, put := RemoveByEndpoint(gone), Upsert(e);
    steps := TakeSteps(mine, remove) + [(mine, TaskModify)] + TakeSteps(theirs, put) + [(theirs, TaskModify)]
      + [(mine, TaskRemove)];
    var s' := RemovalRun(s, mine, theirs, gone, e);
    LostIsInexplicable(start, s', (theirs, Act(put)), (mine, Act(remove)), e.address, e.metadata);
  }

  lemma RemovalRun(s: System, mine: Namespace, theirs: Namespace, gone: Endpoint, e: Endpoint) returns (s': System)
    requires mine != theirs && gone.address != e.address
    requires s == System(map[mine := IDLE, theirs := IDLE], Some(map[gone.address := gone.metadata]), [])
    ensures s' == After(s, TakeSteps(mine, RemoveByEndpoint(gone)) + [(mine, TaskModify)] + TakeSteps(theirs, Upsert(e))
                           + [(theirs, TaskModify)] + [(mine, TaskRemove)])
    ensures s'.locals == map[mine := Local([], Task, Flushed, Free, [Act(RemoveByEndpoint(gone))]),
                             theirs := Local([], Task, Flushed, Free, [Act(Upsert(e))])] && s'.eps == None
  {
    hide After, Tag, Acts;
    var remove, put := RemoveByEndpoint(gone), Upsert(e);
    var t1, t2 := TakeSteps(mine, remove), TakeSteps(theirs, put);
    BatchTaken(s, mine, remove);
    var s1 := After(s, t1);
    SingleBatch(map[gone.address := gone.metadata], remove);
    var s2 := AfterNext(s, t1, s1, (mine, TaskModify));
    assert s2.eps == Some(map[]) && Empties(s1.eps, [remove]);
    assert s2.locals[mine] == Local([], Task, Emptied, Free, [Act(remove)]);
    BatchTaken(s2, theirs, put);
    AfterJoin(s, t1 + [(mine, TaskModify)], t2);
    var s3 := After(s2, t2);
    SingleBatch(map[], put);
    var s4 := AfterNext(s, t1 + [(mine, TaskModify)] + t2, s3, (theirs, TaskModify));
    assert e.address in ApplyBatch(map[], [put]);
    assert s4.eps == Some(map[e.address := e.metadata]) && !Empties(s3.eps, [put]);
    assert s4.locals[theirs] == Local([], Task, Flushed, Free, [Act(put)]) && s4.locals[mine] == s2.locals[mine];
    s' := AfterNext(s, t1 + [(mine, TaskModify)] + t2 + [(theirs, TaskModify)], s4, (mine, TaskRemove));
    assert s'.locals.Keys == {mine, theirs} && s'.locals[theirs] == s4.locals[theirs];
  }

  lemma SingleBatch(eps: EndpointMap, act: Action)
    ensures ApplyBatch(eps, [act]) == ApplyAction(eps, act)
  {
    assert [act][..0] == [];
  }

  function ResetSteps(ns: Namespace, servers: EndpointMap): seq<(Namespace, Step)> {
    [] + [(ns, StartReset(servers))] + [(ns, ProducerLock)] + [(ns, ProducerTake)] + [(ns, ProducerModify)]
  }

  lemma ResetReady(s: System, ns: Namespace, servers: EndpointMap)
    requires Get(s.locals, ns) == Some(IDLE)
    ensures After(s, ResetSteps(ns, servers)) ==
            At(s, ns, Local([], Producer, Resting, Drained(servers), [Reset(servers)]))
  {
    hide Fire, After;
    assert At(s, ns, IDLE) == s;
    Moves(s, ns, IDLE, StartReset(servers));
    var b1 := Local([], Nobody, Resting, Waiting(servers), [Reset(servers)]);
    assert StepLocal(IDLE, s.eps, StartReset(servers)) == b1 by { assert [] + [Reset(servers)] == [Reset(servers)]; }
    Moves(s, ns, b1, ProducerLock);
    Moves(s, ns, b1.(producer := Holding(servers), lock := Producer), ProducerTake);
    Moves(s, ns, b1.(producer := Draining(servers, []), lock := Producer), ProducerModify);
    assert After(s, []) == s by { AfterNone(s); }
    var s1 := AfterNext(s, [], s, (ns, StartReset(servers)));
    var s2 := AfterNext(s, [] + [(ns, StartReset(servers))], s1, (ns, ProducerLock));
    var s3 := AfterNext(s, [] + [(ns, StartReset(servers))] + [(ns, ProducerLock)], s2, (ns, ProducerTake));
    var s4 := AfterNext(s, [] + [(ns, StartReset(servers))] + [(ns, ProducerLock)] + [(ns, ProducerTake)],
                        s3, (ns, ProducerModify));
  }

  function LookSteps(mine: Namespace, theirs: Namespace, sm: EndpointMap, st: EndpointMap): seq<(Namespace, Step)> {
    ResetSteps(theirs, st) + ResetSteps(mine, sm) + [(theirs, ProducerLook)] + [(mine, ProducerLook)]
  }

  /**
   * Two namespaces find no locality and insert their own: the second overwrites the first, and
   * the count stays too high.
   */
  lemma InsertionLosesStranger(mine: Namespace, theirs: Namespace, m: Endpoint, t: Endpoint)
      returns (s: System, steps: seq<(Namespace, Step)>)
    requires mine != theirs && m.address != t.address && FromNamespace(theirs, t.metadata)
    ensures Initial(s) && s.locals.Keys == {mine, theirs} && s.eps == None
    ensures var s' := After(s, steps);
            && AtRest(s') && Present(s'.eps) == map[m.address := m.metadata]
            && Issued(s', mine) == [Reset(map[m.address := m.metadata])]
            && Issued(s', theirs) == [Reset(map[t.address := t.metadata])]
            && Inexplicable(Present(s.eps), s')
            && Count(s, steps) > |Present(s'.eps)|
  {
    hide After, Count, Fire, LookSteps, Inexplicable, Puts, Protects;
    s := System(map[mine := IDLE, theirs := IDLE], None, []);
    var sm, st := map[m.address := m.metadata], map[t.address := t.metadata];
    var pre := LookSteps(mine, theirs, sm, st) + [(theirs, ProducerInsert)];
    steps := pre + [(mine, ProducerInsert)];
    var s5, s' := InsertionRun(s, mine, theirs, sm, st);
    assert t.address in st;
    LastOverwrites(s, pre, (mine, ProducerInsert));
    ResetsClash(mine, theirs, m, t);
    LostIsInexplicable(map[], s', (theirs, Reset(st)), (mine, Reset(sm)), t.address, t.metadata);
  }

  lemma ResetsClash(mine: Namespace, theirs: Namespace, m: Endpoint, t: Endpoint)
    requires mine != theirs && m.address != t.address && FromNamespace(theirs, t.metadata)
    ensures Puts((theirs, Reset(map[t.address := t.metadata])), t.address, t.metadata)
    ensures Protects((mine, Reset(map[m.address := m.metadata])), t.address, t.metadata)
  {}

  lemma LastOverwrites(s: System, pre: seq<(Namespace, Step)>, x: (Namespace, Step))
    requires Overwrites(After(s, pre), x) > 0
    ensures Count(s, pre + [x]) > |Present(After(s, pre + [x]).eps)|
  {
    hide After, Count, Overwrites;
    assert (pre + [x])[..|pre|] == pre;
    CountDrifts(s, pre + [x]);
  }

  lemma InsertionRun(s: System, mine: Namespace, theirs: Namespace, sm: EndpointMap, st: EndpointMap)
      returns (s5: System, s': System)
    requires mine != theirs && s == System(map[mine := IDLE, theirs := IDLE], None, [])
    ensures s5 == After(s, LookSteps(mine, theirs, sm, st) + [(theirs, ProducerInsert)])
    ensures Fires(s5, (mine, ProducerInsert)) && s5.eps == Some(st)
    ensures s' == After(s, LookSteps(mine, theirs, sm, st) + [(theirs, ProducerInsert)] + [(mine, ProducerInsert)])
    ensures s'.locals == map[mine := Local([], Producer, Resting, Done, [Reset(sm)]),
                             theirs := Local([], Producer, Resting, Done, [Reset(st)])]
    ensures s'.eps == Some(sm)
  {
    hide After, Tag, Acts, PartiallyReplaced, ResetSteps;
    var r1, r2 := ResetSteps(theirs, st), ResetSteps(mine, sm);
    ResetReady(s, theirs, st);
    var s1 := After(s, r1);
    ResetReady(s1, mine, sm);
    AfterJoin(s, r1, r2);
    var s2 := After(s1, r2);
    assert s2.locals[theirs] == Local([], Producer, Resting, Drained(st), [Reset(st)]);
    var s3 := AfterNext(s, r1 + r2, s2, (theirs, ProducerLook));
    assert s3.eps == None && s3.locals == s2.locals[theirs := Local([], Producer, Resting, Unfound(st), [Reset(st)])];
    var s4 := AfterNext(s, r1 + r2 + [(theirs, ProducerLook)], s3, (mine, ProducerLook));
    assert s4.eps == None && s4.locals == s3.locals[mine := Local([], Producer, Resting, Unfound(sm), [Reset(sm)])];
    s5 := AfterNext(s, LookSteps(mine, theirs, sm, st), s4, (theirs, ProducerInsert));
    assert s5.locals == s4.locals[theirs := Local([], Producer, Resting, Done, [Reset(st)])];
    s' := AfterNext(s, LookSteps(mine, theirs, sm, st) + [(theirs, ProducerInsert)], s5, (mine, ProducerInsert));
  }

  // ---- What an operation does to other namespaces ----

  /** The endpoints a namespace calls its own. */
  function Share(ns: Namespace, eps: EndpointMap): EndpointMap {
    map a | a in eps && FromNamespace(ns, eps[a]) :: eps[a]
  }

  /** Every endpoint that is not the namespace's own is still there, unchanged. */
  ghost predicate StrangersKept(ns: Namespace, eps: EndpointMap, eps': EndpointMap) {
    forall a :: a in eps && !FromNamespace(ns, eps[a]) ==> Get(eps', a) == Some(eps[a])
  }

  /** An address that is free, the namespace's own, or already holds just this. */
  predicate MayPut(ns: Namespace, eps: EndpointMap, a: Address, md: Metadata) {
    a !in eps || FromNamespace(ns, eps[a]) || eps[a] == md
  }

  /** The operation meets no stranger at the addresses it touches, and its name finds its own endpoint first. */
  ghost predicate Spares(ns: Namespace, eps: EndpointMap, op: Op) {
    match op
    case Act(Upsert(e)) => MayPut(ns, eps, e.address, e.metadata)
    case Act(RemoveByEndpoint(e)) => e.address in eps ==> FromNamespace(ns, eps[e.address])
    case Act(RemoveByName(n)) => Named(eps, n) != {} ==> FromNamespace(ns, eps[First(Named(eps, n))])
    case Reset(servers) => forall a :: a in servers ==> MayPut(ns, eps, a, servers[a])
  }

  lemma RemoveNamedIsLocal(ns: Namespace, eps: EndpointMap, n: string)
    ensures StrangersKept(ns, eps, ApplyAction(eps, RemoveByName(n))) <==>
            (Named(eps, n) != {} ==> FromNamespace(ns, eps[First(Named(eps, n))]))
  {
    if Named(eps, n) != {} {
      var a := First(Named(eps, n));
      assert a in Named(eps, n);
      assert a !in ApplyAction(eps, RemoveByName(n));
    }
  }

  lemma ResetIsLocal(ns: Namespace, eps: EndpointMap, servers: EndpointMap)
    ensures StrangersKept(ns, eps, PartiallyReplaced(eps, servers, Owned(ns))) <==>
            forall a :: a in servers ==> MayPut(ns, eps, a, servers[a])
  {
    var eps' := PartiallyReplaced(eps, servers, Owned(ns));
    assert forall a :: a in servers ==> Get(eps', a) == Some(servers[a]);
    assert forall a :: a in eps && !FromNamespace(ns, eps[a]) && a !in servers ==> Get(eps', a) == Some(eps[a]);
  }

  /** An operation leaves every other namespace's endpoints alone exactly when it spares them. */
  lemma OpSparesStrangers(ns: Namespace, eps: EndpointMap, op: Op)
    ensures StrangersKept(ns, eps, ApplyOp(eps, ns, op)) <==> Spares(ns, eps, op)
  {
    match op
    case Act(Upsert(e)) => assert Get(ApplyOp(eps, ns, op), e.address) == Some(e.metadata);
    case Act(RemoveByEndpoint(e)) => assert e.address !in ApplyOp(eps, ns, op);
    case Act(RemoveByName(n)) => RemoveNamedIsLocal(ns, eps, n);
    case Reset(servers) => ResetIsLocal(ns, eps, servers);
  }

  /** What the operation brings is marked as the namespace's own, as every endpoint of a game server is. */
  ghost predicate Brings(ns: Namespace, op: Op) {
    match op
    case Act(Upsert(e)) => FromNamespace(ns, e.metadata)
    case Reset(servers) => forall a :: a in servers ==> FromNamespace(ns, servers[a])
    case _ => true
  }

  /** An operation that spares strangers acts on its own share as if alone, and on no other share. */
  lemma OpIsLocal(eps: EndpointMap, who: Namespace, op: Op, ns: Namespace)
    requires Brings(who, op) && Spares(who, eps, op)
    ensures Share(ns, ApplyOp(eps, who, op)) == if who == ns then ApplyOp(Share(ns, eps), ns, op) else Share(ns, eps)
  {
    match op
    case Act(Upsert(e)) =>
    case Act(RemoveByEndpoint(e)) =>
    case Act(RemoveByName(n)) => if who == ns { NamedInShare(eps, ns, n); }
    case Reset(servers) => if who == ns { ResetShare(eps, servers, ns); }
  }

  lemma ResetShare(eps: EndpointMap, servers: EndpointMap, ns: Namespace)
    requires forall a :: a in servers ==> FromNamespace(ns, servers[a])
    ensures PartiallyReplaced(Share(ns, eps), servers, Owned(ns)) == servers ==
            Share(ns, PartiallyReplaced(eps, servers, Owned(ns)))
  {}

  /** If the first endpoint with the name is the namespace's own, it is also the first of its share. */
  lemma NamedInShare(eps: EndpointMap, ns: Namespace, n: string)
    requires Named(eps, n) != {} ==> FromNamespace(ns, eps[First(Named(eps, n))])
    ensures Share(ns, ApplyAction(eps, RemoveByName(n))) == ApplyAction(Share(ns, eps), RemoveByName(n))
  {
    var all, mine := Named(eps, n), Named(Share(ns, eps), n);
    assert mine <= all;
    if all != {} {
      var a := First(all);
      assert a in mine;
      FirstUnique(a, mine);
      assert Share(ns, eps - {a}) == Share(ns, eps) - {a};
    }
  }

  /** Every operation, when it took effect, brought its own and spared strangers. */
  ghost predicate AllSpare(start: EndpointMap, ops: seq<(Namespace, Op)>) {
    forall i :: 0 <= i < |ops| ==> Brings(ops[i].0, ops[i].1) && Spares(ops[i].0, ApplyOps(start, ops[..i]), ops[i].1)
  }

  lemma AllSpareLast(start: EndpointMap, ops: seq<(Namespace, Op)>, n: nat)
    requires |ops| == n + 1
    ensures AllSpare(start, ops) <==>
            && AllSpare(start, ops[..n])
            && Brings(ops[n].0, ops[n].1) && Spares(ops[n].0, ApplyOps(start, ops[..n]), ops[n].1)
  {
    hide Brings, Spares, ApplyOps;
    assert forall i :: 0 <= i < n ==> ops[..n][..i] == ops[..i];
  }

  lemma ApplyOpsLast(start: EndpointMap, ops: seq<(Namespace, Op)>, x: (Namespace, Op))
    ensures ApplyOps(start, ops + [x]) == ApplyOp(ApplyOps(start, ops), x.0, x.1)
  {
    assert (ops + [x])[..|ops|] == ops;
  }

  /**
   * Whatever the interleaving, a namespace's share of the endpoints is what its own operations
   * alone, in their order, would have made of it.
   */
  lemma {:induction false} NamespacesAreIsolated(start: EndpointMap, ops: seq<(Namespace, Op)>, ns: Namespace)
    requires AllSpare(start, ops)
    ensures Share(ns, ApplyOps(start, ops)) == ApplyOps(Share(ns, start), Tag(ns, Project(ops, ns)))
  {
    hide AllSpare, Spares, Brings, Share, ApplyOp;
    if ops == [] {
      assert Tag(ns, []) == [];
    } else {
      var n := |ops| - 1;
      var (who, op) := ops[n];
      AllSpareLast(start, ops, n);
      NamespacesAreIsolated(start, ops[..n], ns);
      OpIsLocal(ApplyOps(start, ops[..n]), who, op, ns);
      var before := Project(ops[..n], ns);
      if who == ns {
        assert Tag(ns, before + [op]) == Tag(ns, before) + [(ns, op)];
        ApplyOpsLast(Share(ns, start), Tag(ns, before), (ns, op));
      } else {
        assert before + [] == before;
      }
    }
  }

  /**
   * At rest after a run that lost nothing, each namespace has exactly the endpoints its producer's
   * operations call for.
   */
  lemma QuietNamespaces(s: System, steps: seq<(Namespace, Step)>, ns: Namespace)
    requires Initial(s) && ns in s.locals && AllHarmless(s, steps) && AtRest(After(s, steps))
    requires AllSpare(Present(s.eps), After(s, steps).applied)
    ensures Share(ns, Present(After(s, steps).eps)) ==
            ApplyOps(Share(ns, Present(s.eps)), Tag(ns, Issued(After(s, steps), ns)))
  {
    hide AllSpare, Share, ApplyOps, After, AllHarmless, AtRest, Initial;
    QuietMeansApplied(s, steps);
    RunKeepsOrder(s, steps);
    NamespacesAreIsolated(Present(s.eps), After(s, steps).applied, ns);
  }

  // ---- Separate names and addresses are enough ----

  /** Which namespace an address, and a server name, belongs to. */
  datatype Homes = Homes(address: Address -> Namespace, name: string -> Namespace)

  ghost predicate AtHome(hm: Homes, ns: Namespace, a: Address, md: Metadata) {
    hm.address(a) == ns && FromNamespace(ns, md) && forall n :: HasName(md, n) ==> hm.name(n) == ns
  }

  /** The operation only speaks of its own namespace's addresses and names. */
  ghost predicate OpAtHome(hm: Homes, ns: Namespace, op: Op) {
    match op
    case Act(Upsert(e)) => AtHome(hm, ns, e.address, e.metadata)
    case Act(RemoveByEndpoint(e)) => hm.address(e.address) == ns
    case Act(RemoveByName(n)) => hm.name(n) == ns
    case Reset(servers) => forall a :: a in servers ==> AtHome(hm, ns, a, servers[a])
  }

  ghost predicate Settled(hm: Homes, eps: EndpointMap) {
    forall a :: a in eps ==> AtHome(hm, hm.address(a), a, eps[a])
  }

  /** If no address and no name is used by two namespaces, every operation spares strangers. */
  lemma {:induction false} SeparateHomesSpare(hm: Homes, start: EndpointMap, ops: seq<(Namespace, Op)>)
    requires Settled(hm, start) && forall x :: x in ops ==> OpAtHome(hm, x.0, x.1)
    ensures Settled(hm, ApplyOps(start, ops)) && AllSpare(start, ops)
  {
    hide Settled, OpAtHome, ApplyOp, Spares, Brings, AllSpare;
    NoneSpare(start);
    if ops != [] {
      var n := |ops| - 1;
      assert forall x :: x in ops[..n] ==> x in ops;
      assert ops[n] in ops;
      SeparateHomesSpare(hm, start, ops[..n]);
      HomeSpares(hm, ApplyOps(start, ops[..n]), ops[n].0, ops[n].1);
      AllSpareLast(start, ops, n);
    }
  }

  lemma NoneSpare(start: EndpointMap)
    ensures AllSpare(start, [])
  {}

  lemma HomeSpares(hm: Homes, eps: EndpointMap, ns: Namespace, op: Op)
    requires Settled(hm, eps) && OpAtHome(hm, ns, op)
    ensures Brings(ns, op) && Spares(ns, eps, op) && Settled(hm, ApplyOp(eps, ns, op))
  {
    if op.Act? && op.act.RemoveByName? && Named(eps, op.act.name) != {} {
      assert First(Named(eps, op.act.name)) in Named(eps, op.act.name);
    }
  }

  /** If two namespaces use one server name, a delete by name in one can take the other's endpoint. */
  lemma SharedNameRemovesStranger(a: Address, b: Address, n: string)
    requires a != b && Leq(a, b)
    ensures var md := (ns: Namespace) => Metadata({}, map["name" := Str(n), "namespace" := Str(ns)]);
            ApplyOp(map[a := md("theirs"), b := md("mine")], "mine", Act(RemoveByName(n))) == map[b := md("mine")]
  {
    var md := (ns: Namespace) => Metadata({}, map["name" := Str(n), "namespace" := Str(ns)]);
    var eps := map[a := md("theirs"), b := md("mine")];
    assert Named(eps, n) == {a, b};
    AddressOrder(a, a, a);
    FirstUnique(a, Named(eps, n));
    assert eps - {a} == map[b := md("mine")];
  }
}
