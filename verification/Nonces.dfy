/**
 * Request/reply matching in QCMP (src/codec/qcmp.rs): a ping leases a nonce from a pool, registers a
 * waiter under it, sends, waits for its reply or a timeout, unregisters and returns the nonce. A
 * receive task takes the waiter registered under a reply's nonce and hands the reply to it. Each of
 * these is a step of its own; a ping may also fail to send, or be dropped while it awaits. Servers
 * answer any ping that was sent, at any time and any number of times.
 */
module Nonces {
  import opened Base
  import opened Qcmp

  /** Nonces 0 to 254; 255 is never used. */
  const NONCES: nat := 255

  // ---- The pool ----

  class NoncePool {
    var nonces: seq<Byte>

    constructor ()
      ensures nonces == AllNonces()
    {
      var ns: seq<Byte> := [];
      for i := 0 to NONCES
        invariant |ns| == i && forall j :: 0 <= j < i ==> ns[j] == j
      {
        ns := ns + [i];
      }
      nonces := ns;
    }

    /** Leases the nonce at a random index, None if all are out. */
    method Lease(random: nat) returns (r: Option<Byte>)
      requires NoDuplicates(nonces) && (nonces != [] ==> random < |nonces|)
      modifies this
      ensures NoDuplicates(nonces)
      ensures r.None? <==> old(nonces) == []
      ensures r.None? ==> nonces == old(nonces)
      ensures r.Some? ==> r.value == old(nonces)[random] && nonces == SwapRemove(old(nonces), random)
    {
      if |nonces| == 0 {
        return None;
      }
      SwapRemoveDrops(nonces, random);
      r := Some(nonces[random]);
      nonces := SwapRemove(nonces, random);
    }

    /** A dropped lease returns its nonce. */
    method Release(nonce: Byte)
      requires NoDuplicates(nonces) && nonce !in nonces
      modifies this
      ensures NoDuplicates(nonces) && nonces == old(nonces) + [nonce]
    {
      NoDuplicatesAppend(nonces, nonce);
      nonces := nonces + [nonce];
    }
  }

  function AllNonces(): (s: seq<Byte>)
    ensures |s| == NONCES && forall i :: 0 <= i < NONCES ==> s[i] == i
  {
    seq(NONCES, i requires 0 <= i < NONCES => i)
  }

  // ---- The protocol ----

  type Id = nat

  datatype Pc = Leased | Registered | Waiting | Resolved | Unregistered | Finished | Abandoned

  /** A reply, and the ping it answers. */
  datatype Letter = Letter(of: Id, reply: Protocol)

  /**
   * `sent` is the timestamp the ping carried, `mailbox` the oneshot channel, `result` what the
   * call returns (None is an error).
   */
  datatype Call = Call(pc: Pc, nonce: Byte, sent: Option<I64>, mailbox: Option<Letter>, result: Option<Letter>)

  /** The receive task has taken a waiter out and is about to send to it. */
  datatype Hand = Hand(letter: Letter, to: Id)

  datatype Net =
    Net(pool: seq<Byte>, waiters: map<Byte, Id>, calls: map<Id, Call>, wire: set<Letter>, hand: Option<Hand>)

  datatype Step =
    | Lease(id: Id, random: nat)
    | Register(id: Id)
    | Send(id: Id, at: I64)
    | SendFailed(id: Id)              // returns early: the waiter stays registered
    | Dropped(id: Id)                 // the future is dropped at an await: likewise
    | Answer(of: Id, start: I64, transmit: I64)
    | Receive(letter: Letter)         // takes the waiter under the reply's nonce
    | Deliver                         // sends to the waiter taken
    | Resolve(id: Id)                 // the reply is there, or the timeout fires without it
    | Unregister(id: Id)
    | Release(id: Id)

  predicate At(s: Net, id: Id, pc: Pc) {
    id in s.calls && s.calls[id].pc == pc
  }

  predicate Enabled(s: Net, e: Step) {
    match e
    case Lease(id, i) => id !in s.calls && i < |s.pool|
    case Register(id) => At(s, id, Leased)
    case Send(id, _) => At(s, id, Registered)
    case SendFailed(id) => At(s, id, Registered)
    case Dropped(id) => At(s, id, Registered) || At(s, id, Waiting)
    case Answer(id, _, _) => id in s.calls && s.calls[id].sent.Some?
    case Receive(l) => s.hand.None? && l in s.wire
    case Deliver => s.hand.Some? && s.hand.value.to in s.calls
    case Resolve(id) => At(s, id, Waiting)
    case Unregister(id) => At(s, id, Resolved)
    case Release(id) => At(s, id, Unregistered)
  }

  /** The receiving half of the channel still exists. */
  predicate Listening(c: Call) {
    c.pc == Registered || c.pc == Waiting
  }

  function With(s: Net, id: Id, c: Call): Net {
    s.(calls := s.calls[id := c])
  }

  function Fire(s: Net, e: Step): Net
    requires Enabled(s, e)
  {
    match e
    case Lease(id, i) => With(s, id, Call(Leased, s.pool[i], None, None, None)).(pool := SwapRemove(s.pool, i))
    case Register(id) => With(s, id, s.calls[id].(pc := Registered)).(waiters := s.waiters[s.calls[id].nonce := id])
    case Send(id, at) => With(s, id, s.calls[id].(pc := Waiting, sent := Some(at)))
    case SendFailed(id) => With(s, id, s.calls[id].(pc := Abandoned)).(pool := s.pool + [s.calls[id].nonce])
    case Dropped(id) => With(s, id, s.calls[id].(pc := Abandoned)).(pool := s.pool + [s.calls[id].nonce])
    case Answer(id, start, transmit) =>
      s.(wire := s.wire + {Letter(id, PingReply(s.calls[id].sent.value, s.calls[id].nonce, start, transmit))})
    case Receive(l) =>
      var n := l.reply.nonce;
      if n in s.waiters
      then s.(wire := s.wire - {l}, waiters := s.waiters - {n}, hand := Some(Hand(l, s.waiters[n])))
      else s.(wire := s.wire - {l})
    case Deliver =>
      var Hand(l, id) := s.hand.value;
      if Listening(s.calls[id]) then With(s, id, s.calls[id].(mailbox := Some(l))).(hand := None) else s.(hand := None)
    case Resolve(id) => With(s, id, s.calls[id].(pc := Resolved, result := s.calls[id].mailbox))
    case Unregister(id) =>
      With(s, id, s.calls[id].(pc := Unregistered)).(waiters := s.waiters - {s.calls[id].nonce})
    case Release(id) => With(s, id, s.calls[id].(pc := Finished)).(pool := s.pool + [s.calls[id].nonce])
  }

  // ---- The invariant ----

  predicate Holds(c: Call) {
    c.pc != Finished && c.pc != Abandoned
  }

  /** Free and leased nonces partition 0..254: none twice, none lost. */
  ghost predicate Partition(s: Net) {
    && NoDuplicates(s.pool)
    && (forall k :: k in s.pool ==> k < NONCES)
    && (forall id :: id in s.calls && Holds(s.calls[id]) ==> s.calls[id].nonce < NONCES && s.calls[id].nonce !in s.pool)
    && Distinct(s)
    && (forall k: Byte :: k < NONCES && k !in s.pool ==> exists id :: HeldBy(s, k, id))
  }

  ghost predicate Distinct(s: Net) {
    forall i, j :: i in s.calls && j in s.calls && Holds(s.calls[i]) && Holds(s.calls[j]) ==>
      s.calls[i].nonce == s.calls[j].nonce ==> i == j
  }

  predicate HeldBy(s: Net, k: Byte, id: Id) {
    id in s.calls && Holds(s.calls[id]) && s.calls[id].nonce == k
  }

  predicate HandedTo(s: Net, id: Id) {
    s.hand.Some? && s.hand.value.to == id
  }

  /** A registered ping that has not been answered waits under its nonce, or its waiter is in the receiver's hand. */
  ghost predicate WaitersLive(s: Net) {
    forall id :: id in s.calls && Listening(s.calls[id]) && s.calls[id].mailbox.None? ==>
      Get(s.waiters, s.calls[id].nonce) == Some(id) || HandedTo(s, id)
  }

  /** The ping is past registering, leased `k`, and has had no reply. */
  predicate Unanswered(s: Net, id: Id, k: Byte) {
    id in s.calls && s.calls[id].nonce == k && s.calls[id].mailbox.None? && s.calls[id].pc != Leased
  }

  /** Whoever waits under a nonce, or is in the receiver's hand, leased the nonce and has had no reply. */
  ghost predicate WaitersHonest(s: Net) {
    && (forall k :: k in s.waiters ==> Unanswered(s, s.waiters[k], k) && !HandedTo(s, s.waiters[k]))
    && (s.hand.Some? ==> Unanswered(s, s.hand.value.to, s.hand.value.letter.reply.nonce))
  }

  /** A ping that ran to its end has left no waiter behind. */
  ghost predicate NoLeaks(s: Net) {
    forall k :: k in s.waiters ==> !At(s, s.waiters[k], Unregistered) && !At(s, s.waiters[k], Finished)
  }

  /** The letter is an answer to a ping that was sent. */
  predicate Genuine(s: Net, l: Letter) {
    && l.of in s.calls && l.reply.PingReply? && l.reply.nonce == s.calls[l.of].nonce
    && s.calls[l.of].sent == Some(l.reply.clientTimestamp)
  }

  ghost predicate AllGenuine(s: Net) {
    && (forall l :: l in s.wire ==> Genuine(s, l))
    && (s.hand.Some? ==> Genuine(s, s.hand.value.letter))
    && (forall id :: id in s.calls && s.calls[id].mailbox.Some? ==> Genuine(s, s.calls[id].mailbox.value))
    && (forall id :: id in s.calls && (s.calls[id].pc == Leased || s.calls[id].pc == Registered) ==>
       s.calls[id].sent.None?)
  }

  /** Whatever a ping receives or returns carries its own nonce. */
  ghost predicate RepliesMatch(s: Net) {
    forall id :: id in s.calls ==>
      var c := s.calls[id];
      && (c.mailbox.Some? ==> c.mailbox.value.reply.nonce == c.nonce)
      && (c.result.Some? ==> c.result == c.mailbox)
      && (c.pc == Leased ==> c.mailbox.None?)
  }

  ghost predicate Inv(s: Net) {
    Partition(s) && WaitersLive(s) && WaitersHonest(s) && NoLeaks(s) && RepliesMatch(s) && AllGenuine(s)
  }

  const START := Net(AllNonces(), map[], map[], {}, None)

  lemma StartInv()
    ensures Inv(START)
  {
    forall k: Byte | k < NONCES ensures k in START.pool {
      assert AllNonces()[k] == k;
    }
  }

  lemma PartitionAfterLease(s: Net, id: Id, i: nat)
    requires Partition(s) && Enabled(s, Lease(id, i))
    ensures Partition(Fire(s, Lease(id, i)))
  {
    hide SwapRemove;
    SwapRemoveDrops(s.pool, i);
    assert s.pool[i] in s.pool;
    var s' := Fire(s, Lease(id, i));
    forall k: Byte | k < NONCES && k !in s'.pool ensures exists j :: HeldBy(s', k, j) {
      if k == s.pool[i] {
        assert HeldBy(s', k, id);
      } else {
        var j :| HeldBy(s, k, j);
        assert HeldBy(s', k, j);
      }
    }
  }

  lemma PartitionAfterReturn(s: Net, e: Step)
    requires Partition(s) && WaitersHonest(s) && Enabled(s, e) && (e.SendFailed? || e.Dropped? || e.Release?)
    ensures Partition(Fire(s, e))
  {
    var id := e.id;
    var s' := Fire(s, e);
    NoDuplicatesAppend(s.pool, s.calls[id].nonce);
    forall k: Byte | k < NONCES && k !in s'.pool ensures exists j :: HeldBy(s', k, j) {
      var j :| HeldBy(s, k, j);
      assert HeldBy(s', k, j);
    }
  }

  /** The other steps move no nonce. */
  lemma NoncesStay(s: Net, e: Step)
    requires Enabled(s, e) && !e.Lease? && !e.SendFailed? && !e.Dropped? && !e.Release?
    ensures var s' := Fire(s, e);
            && s'.pool == s.pool && s'.calls.Keys == s.calls.Keys
            && forall j :: j in s.calls ==>
               s'.calls[j].nonce == s.calls[j].nonce && Holds(s'.calls[j]) == Holds(s.calls[j])
  {
    hide SwapRemove;
  }

  lemma PartitionElsewhere(s: Net, e: Step)
    requires Partition(s) && Enabled(s, e) && !e.Lease? && !e.SendFailed? && !e.Dropped? && !e.Release?
    ensures Partition(Fire(s, e))
  {
    hide Fire, Enabled, Holds, NoDuplicates;
    NoncesStay(s, e);
    var s' := Fire(s, e);
    forall k: Byte | k < NONCES && k !in s'.pool ensures exists j :: HeldBy(s', k, j) {
      var j :| HeldBy(s, k, j);
      assert HeldBy(s', k, j);
    }
  }

  lemma PartitionKept(s: Net, e: Step)
    requires Inv(s) && Enabled(s, e)
    ensures Partition(Fire(s, e))
  {
    hide Partition, Fire, WaitersHonest;
    match e
    case Lease(id, i) => PartitionAfterLease(s, id, i);
    case SendFailed(_) => PartitionAfterReturn(s, e);
    case Dropped(_) => PartitionAfterReturn(s, e);
    case Release(_) => PartitionAfterReturn(s, e);
    case _ => PartitionElsewhere(s, e);
  }

  /** No step of another ping displaces or unregisters a live ping's waiter, its nonce being its own. */
  lemma LiveKept(s: Net, e: Step)
    requires Distinct(s) && WaitersLive(s) && WaitersHonest(s) && Enabled(s, e)
    ensures WaitersLive(Fire(s, e))
  {
    hide SwapRemove;
  }

  /** Only a delivery to it answers a ping. */
  lemma UnansweredStays(s: Net, e: Step, id: Id, k: Byte)
    requires Enabled(s, e) && Unanswered(s, id, k) && !(e.Deliver? && HandedTo(s, id))
    ensures Unanswered(Fire(s, e), id, k)
  {
    hide SwapRemove;
  }

  /** Which waiters a step leaves, takes out or adds. */
  lemma WaitersAfter(s: Net, e: Step, k: Byte)
    requires Enabled(s, e) && k in Fire(s, e).waiters
    ensures var s' := Fire(s, e);
            if e.Register? && k == s.calls[e.id].nonce then s'.waiters[k] == e.id
            else k in s.waiters && s'.waiters[k] == s.waiters[k] && (e.Receive? ==> e.letter.reply.nonce != k)
  {
    hide SwapRemove;
  }

  lemma HonestKept(s: Net, e: Step)
    requires WaitersHonest(s) && RepliesMatch(s) && Enabled(s, e)
    ensures WaitersHonest(Fire(s, e))
  {
    hide SwapRemove;
    var s' := Fire(s, e);
    forall k | k in s'.waiters ensures Unanswered(s', s'.waiters[k], k) && !HandedTo(s', s'.waiters[k]) {
      WaitersAfter(s, e, k);
      if !(e.Register? && k == s.calls[e.id].nonce) {
        UnansweredStays(s, e, s.waiters[k], k);
      }
    }
    HandStays(s, e);
  }

  lemma NoLeaksKept(s: Net, e: Step)
    requires WaitersHonest(s) && NoLeaks(s) && Enabled(s, e)
    ensures NoLeaks(Fire(s, e))
  {
    hide SwapRemove;
    var s' := Fire(s, e);
    forall k | k in s'.waiters ensures !At(s', s'.waiters[k], Unregistered) && !At(s', s'.waiters[k], Finished) {
      WaitersAfter(s, e, k);
      assert e.Register? || Unanswered(s, s.waiters[k], k);
    }
  }

  /** Registering finds another waiter under the nonce only if that ping failed to send or was dropped. */
  lemma CollisionMeansAbandoned(s: Net, id: Id)
    requires Inv(s) && At(s, id, Leased) && s.calls[id].nonce in s.waiters
    ensures At(s, s.waiters[s.calls[id].nonce], Abandoned)
  {
    InvParts(s);
    var other := s.waiters[s.calls[id].nonce];
    assert Unanswered(s, other, s.calls[id].nonce);
  }

  lemma HandStays(s: Net, e: Step)
    requires WaitersHonest(s) && Enabled(s, e)
    ensures var s' := Fire(s, e);
            s'.hand.Some? ==> Unanswered(s', s'.hand.value.to, s'.hand.value.letter.reply.nonce)
  {
    hide Unanswered, SwapRemove;
    var s' := Fire(s, e);
    if s'.hand.Some? {
      assert !e.Deliver?;
      UnansweredStays(s, e, s'.hand.value.to, s'.hand.value.letter.reply.nonce);
    }
  }

  /** A letter stays an answer to the ping it answered. */
  lemma GenuineStays(s: Net, e: Step, l: Letter)
    requires AllGenuine(s) && Enabled(s, e) && Genuine(s, l)
    ensures Genuine(Fire(s, e), l)
  {
    hide SwapRemove;
  }

  lemma GenuineKept(s: Net, e: Step)
    requires AllGenuine(s) && Enabled(s, e)
    ensures AllGenuine(Fire(s, e))
  {
    hide SwapRemove, Genuine;
    forall l | Genuine(s, l) ensures Genuine(Fire(s, e), l) {
      GenuineStays(s, e, l);
    }
    if e.Answer? {
      AnswerIsGenuine(s, e);
    }
  }

  lemma AnswerIsGenuine(s: Net, e: Step)
    requires e.Answer? && Enabled(s, e)
    ensures forall l :: l in Fire(s, e).wire ==> l in s.wire || Genuine(Fire(s, e), l)
  {}

  lemma RepliesKept(s: Net, e: Step)
    requires WaitersHonest(s) && RepliesMatch(s) && Enabled(s, e)
    ensures RepliesMatch(Fire(s, e))
  {
    hide SwapRemove;
  }

  lemma InvParts(s: Net)
    requires Inv(s)
    ensures Distinct(s)
  {}

  /** Firing `steps` one after the other leads from `s` to `s'`. */
  ghost predicate Leads(s: Net, steps: seq<Step>, s': Net)
    decreases |steps|
  {
    if steps == [] then s' == s
    else Enabled(s, steps[0]) && Leads(Fire(s, steps[0]), steps[1..], s')
  }

  lemma {:induction false} StepsKeepInv(s: Net, steps: seq<Step>, s': Net)
    requires Inv(s) && Leads(s, steps, s')
    ensures Inv(s')
    decreases |steps|
  {
    hide Inv, Fire, Enabled;
    if steps != [] {
      FireKeepsInv(s, steps[0]);
      StepsKeepInv(Fire(s, steps[0]), steps[1..], s');
    }
  }

  /** In every interleaving from the start, every state keeps the partition, the waiters and the replies straight. */
  lemma RunKeepsInv(steps: seq<Step>, s: Net)
    requires Leads(START, steps, s)
    ensures Partition(s) && Distinct(s) && WaitersLive(s) && WaitersHonest(s) && NoLeaks(s)
    ensures RepliesMatch(s) && AllGenuine(s)
  {
    hide Leads, Partition, Distinct, WaitersLive, WaitersHonest, NoLeaks, RepliesMatch, AllGenuine;
    StartInv();
    StepsKeepInv(START, steps, s);
    InvParts(s);
  }

  lemma FireKeepsInv(s: Net, e: Step)
    requires Inv(s) && Enabled(s, e)
    ensures Inv(Fire(s, e))
  {
    hide Partition, Distinct, WaitersLive, WaitersHonest, NoLeaks, RepliesMatch, AllGenuine, Fire, Enabled;
    InvParts(s);
    NoLeaksKept(s, e);
    PartitionKept(s, e);
    LiveKept(s, e);
    HonestKept(s, e);
    RepliesKept(s, e);
    GenuineKept(s, e);
  }

  /** A reply, once in the mailbox, is never replaced, and a returned one stays. */
  lemma AtMostOneReply(s: Net, e: Step, id: Id)
    requires Inv(s) && Enabled(s, e) && id in s.calls
    ensures id in Fire(s, e).calls
    ensures s.calls[id].mailbox.Some? ==> Fire(s, e).calls[id].mailbox == s.calls[id].mailbox
    ensures s.calls[id].result.Some? ==> Fire(s, e).calls[id].result == s.calls[id].result
  {
    hide Partition, WaitersLive, AllGenuine, SwapRemove;
  }

  /** A reply is taken off the wire once, and without a waiter for its nonce it is lost. */
  lemma ReceivedOnce(s: Net, l: Letter)
    requires Inv(s) && Enabled(s, Receive(l))
    ensures var s' := Fire(s, Receive(l));
            && s'.wire == s.wire - {l} && s'.calls == s.calls && s'.pool == s.pool
            && (s'.hand.Some? <==> l.reply.nonce in s.waiters)
  {}

  // ---- Which ping a reply reaches ----

  /** Received and delivered at once, the letter ends up in the ping's mailbox. */
  ghost predicate Reaches(s: Net, l: Letter, id: Id) {
    && Enabled(s, Receive(l)) && Enabled(Fire(s, Receive(l)), Deliver)
    && id in s.calls && s.calls[id].mailbox.None?
    && Fire(Fire(s, Receive(l)), Deliver).calls[id].mailbox == Some(l)
  }

  /** Its nonce is the answered ping's, it is registered and has had no reply. */
  predicate Awaits(s: Net, id: Id, l: Letter) {
    && id in s.calls && Listening(s.calls[id]) && s.calls[id].mailbox.None?
    && l.of in s.calls && s.calls[id].nonce == s.calls[l.of].nonce
  }

  /**
   * In every reachable state, a reply on the wire reaches the ping it answers exactly when that
   * ping still listens and has had no other reply; it reaches another ping exactly when the
   * answered one is over and the other, having leased its nonce again, listens.
   */
  lemma ReplyReaches(s: Net, l: Letter, id: Id)
    requires Inv(s) && s.hand.None? && l in s.wire
    ensures Reaches(s, l, l.of) <==> Listening(s.calls[l.of]) && s.calls[l.of].mailbox.None?
    ensures id != l.of ==> (Reaches(s, l, id) <==> Awaits(s, id, l) && !Holds(s.calls[l.of]))
  {
    hide Partition, RepliesMatch, Reaches, Fire;
    InvParts(s);
    ReachesAwaiting(s, l, l.of);
    ReachesAwaiting(s, l, id);
    assert Genuine(s, l);
    if Awaits(s, id, l) {
      assert Holds(s.calls[id]);
    }
  }

  lemma ReachesAwaiting(s: Net, l: Letter, id: Id)
    requires WaitersLive(s) && WaitersHonest(s) && AllGenuine(s) && s.hand.None? && l in s.wire
    ensures Reaches(s, l, id) <==> Awaits(s, id, l)
  {
    assert Genuine(s, l);
    var n, s1 := l.reply.nonce, Fire(s, Receive(l));
    if n in s.waiters {
      var to := s.waiters[n];
      assert s1.hand == Some(Hand(l, to)) && s1.calls == s.calls && Unanswered(s, to, n);
      var s2 := Fire(s1, Deliver);
      assert id in s.calls && id != to ==> s2.calls[id] == s.calls[id];
      assert s2.calls[to].mailbox == Some(l) <==> Listening(s.calls[to]);
    } else {
      assert s1.hand == None;
    }
    if Awaits(s, id, l) {
      assert Get(s.waiters, s.calls[id].nonce) == Some(id);
    }
  }

  /** Between taking the waiter and sending to it the ping may end; then the reply is lost, not misdirected. */
  lemma DeliverReaches(s: Net)
    requires Inv(s) && s.hand.Some?
    ensures Enabled(s, Deliver)
    ensures var Hand(l, to) := s.hand.value;
            && (Fire(s, Deliver).calls[to].mailbox == Some(l) <==> Listening(s.calls[to]))
            && (forall id :: id in s.calls && id != to ==> Fire(s, Deliver).calls[id] == s.calls[id])
  {
    hide Partition, RepliesMatch, WaitersLive;
  }

  // ---- Runs without foreign replies ----

  /** No ping holds, or has returned, a reply to another. */
  ghost predicate OwnReplies(s: Net) {
    forall id :: id in s.calls ==>
      && (s.calls[id].mailbox.Some? ==> s.calls[id].mailbox.value.of == id)
      && (s.calls[id].result.Some? ==> s.calls[id].result.value.of == id)
  }

  /**
   * A nonce is leased only while no reply that carries it is under way, and a ping is answered only
   * while no other ping holds its nonce.
   */
  ghost predicate Clean(s: Net, e: Step)
    requires Enabled(s, e)
  {
    match e
    case Lease(_, i) =>
      && (forall l :: l in s.wire ==> l.reply.nonce != s.pool[i])
      && (s.hand.Some? ==> s.hand.value.letter.reply.nonce != s.pool[i])
    case Answer(of, _, _) => forall id :: id != of ==> !HeldBy(s, s.calls[of].nonce, id)
    case _ => true
  }

  /** No other ping than the answered one holds the letter's nonce. */
  ghost predicate Apart(s: Net, l: Letter) {
    forall id :: id != l.of ==> !HeldBy(s, l.reply.nonce, id)
  }

  ghost predicate AllApart(s: Net) {
    && (forall l :: l in s.wire ==> Apart(s, l))
    && (s.hand.Some? ==> Apart(s, s.hand.value.letter))
  }

  lemma ApartKept(s: Net, e: Step)
    requires AllGenuine(s) && AllApart(s) && Enabled(s, e) && Clean(s, e)
    ensures AllApart(Fire(s, e))
  {
    hide SwapRemove, Genuine;
    var s' := Fire(s, e);
    forall id, k | HeldBy(s', k, id) ensures HeldBy(s, k, id) || (e.Lease? && id == e.id && k == s.pool[e.random]) {}
  }

  /** The one step that can give a ping a foreign reply is a delivery to it, while it listens, of another's. */
  lemma OwnExactly(s: Net, e: Step)
    requires OwnReplies(s) && Enabled(s, e)
    ensures OwnReplies(Fire(s, e)) <==>
            (e.Deliver? ==> var Hand(l, to) := s.hand.value; Listening(s.calls[to]) ==> l.of == to)
  {
    hide SwapRemove;
    if e.Deliver? {
      var Hand(l, to) := s.hand.value;
      if Listening(s.calls[to]) {
        assert Fire(s, e).calls[to].mailbox == Some(l);
      }
    }
  }

  lemma OwnKept(s: Net, e: Step)
    requires WaitersHonest(s) && AllApart(s) && OwnReplies(s) && Enabled(s, e)
    ensures OwnReplies(Fire(s, e))
  {
    hide OwnReplies, Fire;
    OwnExactly(s, e);
    if e.Deliver? && Listening(s.calls[s.hand.value.to]) {
      assert HeldBy(s, s.hand.value.letter.reply.nonce, s.hand.value.to);
    }
  }

  ghost predicate CleanRun(s: Net, steps: seq<Step>, s': Net)
    decreases |steps|
  {
    if steps == [] then s' == s
    else Enabled(s, steps[0]) && Clean(s, steps[0]) && CleanRun(Fire(s, steps[0]), steps[1..], s')
  }

  lemma {:induction false} CleanStepsKeepOwn(s: Net, steps: seq<Step>, s': Net)
    requires Inv(s) && AllApart(s) && OwnReplies(s) && CleanRun(s, steps, s')
    ensures OwnReplies(s')
    decreases |steps|
  {
    hide Partition, WaitersLive, WaitersHonest, RepliesMatch, AllGenuine, AllApart, OwnReplies, Fire, Enabled, Clean;
    if steps != [] {
      FireKeepsInv(s, steps[0]);
      ApartKept(s, steps[0]);
      OwnKept(s, steps[0]);
      CleanStepsKeepOwn(Fire(s, steps[0]), steps[1..], s');
    }
  }

  /**
   * If no nonce is leased again while an answer to an earlier holder is under way or still to come,
   * no ping returns a foreign reply.
   */
  lemma CleanRunsKeepOwn(steps: seq<Step>, s: Net)
    requires CleanRun(START, steps, s)
    ensures OwnReplies(s)
  {
    hide CleanRun;
    StartInv();
    CleanStepsKeepOwn(START, steps, s);
  }

  // ---- A run with a foreign reply ----

  lemma Before(s: Net, e: Step, mid: Net, steps: seq<Step>, s': Net)
    requires Enabled(s, e) && Fire(s, e) == mid && Leads(mid, steps, s')
    ensures Leads(s, [e] + steps, s')
  {
    hide Fire, Enabled;
    assert ([e] + steps)[1..] == steps;
  }

  lemma LastNonce(rest: seq<Byte>)
    requires rest == AllNonces()[..254]
    ensures AllNonces()[254] == 254 && |AllNonces()| == 255
    ensures SwapRemove(AllNonces(), 254) == rest && SwapRemove(rest + [254], 254) == rest
  {}

  /** The state after one ping has come and gone unanswered. */
  function AfterFirst(a: Id, t: I64): Net {
    Net(AllNonces()[..254] + [254], map[], map[a := Call(Finished, 254, Some(t), None, None)], {}, None)
  }

  lemma FirstPing(a: Id, t: I64, steps: seq<Step>, s': Net) returns (all: seq<Step>)
    requires Leads(AfterFirst(a, t), steps, s')
    ensures Leads(START, all, s')
  {
    hide AllNonces, SwapRemove, Leads;
    var rest := AllNonces()[..254];
    LastNonce(rest);
    var c := Call(Leased, 254, None, None, None);
    var sent := c.(sent := Some(t));
    var s1 := Net(rest, map[], map[a := c], {}, None);
    var s2 := Net(rest, map[254 := a], map[a := c.(pc := Registered)], {}, None);
    var s3 := s2.(calls := map[a := sent.(pc := Waiting)]);
    var s4 := s2.(calls := map[a := sent.(pc := Resolved)]);
    var s5 := Net(rest, map[], map[a := sent.(pc := Unregistered)], {}, None);
    Before(s5, Release(a), AfterFirst(a, t), steps, s');
    all := [Release(a)] + steps;
    Before(s4, Unregister(a), s5, all, s');
    all := [Unregister(a)] + all;
    Before(s3, Resolve(a), s4, all, s');
    all := [Resolve(a)] + all;
    Before(s2, Send(a, t), s3, all, s');
    all := [Send(a, t)] + all;
    Before(s1, Register(a), s2, all, s');
    all := [Register(a)] + all;
    Before(START, Lease(a, 254), s1, all, s');
    all := [Lease(a, 254)] + all;
  }

  /**
   * A ping that fails to send, or is dropped before or after it is sent, leaves its waiter behind for
   * the next ping with its nonce to find.
   */
  lemma WaiterLeftBehind(a: Id, b: Id, sent: Option<I64>, e: Step) returns (steps: seq<Step>, last: Net)
    requires a != b && (e == Dropped(a) || (e == SendFailed(a) && sent.None?))
    ensures Leads(START, steps, last)
    ensures At(last, b, Leased) && Get(last.waiters, last.calls[b].nonce) == Some(a) && At(last, a, Abandoned)
  {
    hide AllNonces, SwapRemove, Leads;
    var rest := AllNonces()[..254];
    LastNonce(rest);
    var c := Call(Leased, 254, None, None, None);
    var s1 := Net(rest, map[], map[a := c], {}, None);
    var s2 := Net(rest, map[254 := a], map[a := c.(pc := Registered)], {}, None);
    var s3 := s2.(calls := map[a := c.(pc := if sent.Some? then Waiting else Registered, sent := sent)]);
    var gone := c.(pc := Abandoned, sent := sent);
    var s4 := Net(rest + [254], map[254 := a], map[a := gone], {}, None);
    last := Net(rest, map[254 := a], map[a := gone, b := c], {}, None);
    Stay(last);
    Before(s4, Lease(b, 254), last, [], last);
    steps := [Lease(b, 254)] + [];
    Before(s3, e, s4, steps, last);
    steps := [e] + steps;
    if sent.Some? {
      Before(s2, Send(a, sent.value), s3, steps, last);
      steps := [Send(a, sent.value)] + steps;
    }
    Before(s1, Register(a), s2, steps, last);
    steps := [Register(a)] + steps;
    Before(START, Lease(a, 254), s1, steps, last);
    steps := [Lease(a, 254)] + steps;
  }

  /**
   * The nonce is all that ties a reply to its ping: the late answer to a ping that timed out is
   * returned by the next ping that leased the same nonce, although it echoes the first one's timestamp.
   */
  lemma LateReplyIsMisattributed(a: Id, b: Id, first: I64, second: I64) returns (steps: seq<Step>, last: Net)
    requires a != b && first != second
    ensures Leads(START, steps, last)
    ensures At(last, a, Finished) && last.calls[a].sent == Some(first) && last.calls[a].result.None?
    ensures At(last, b, Resolved) && last.calls[b].sent == Some(second)
    ensures last.calls[b].result.Some? && last.calls[b].result.value.of == a
    ensures last.calls[b].result.value.reply.clientTimestamp == first
  {
    hide AllNonces, SwapRemove, Leads;
    var rest := AllNonces()[..254];
    LastNonce(rest);
    var gone := Call(Finished, 254, Some(first), None, None);
    var c := Call(Leased, 254, None, None, None);
    var w := Call(Waiting, 254, Some(second), None, None);
    var l := Letter(a, PingReply(first, 254, 0, 0));
    var got := w.(mailbox := Some(l));
    var s7 := Net(rest, map[], map[a := gone, b := c], {}, None);
    var s8 := Net(rest, map[254 := b], map[a := gone, b := c.(pc := Registered)], {}, None);
    var s9 := s8.(calls := map[a := gone, b := w]);
    var s10 := s9.(wire := {l});
    var s11 := Net(rest, map[], map[a := gone, b := w], {}, Some(Hand(l, b)));
    var s12 := Net(rest, map[], map[a := gone, b := got], {}, None);
    last := Net(rest, map[], map[a := gone, b := got.(pc := Resolved, result := Some(l))], {}, None);
    Stay(last);
    Before(s12, Resolve(b), last, [], last);
    steps := [Resolve(b)] + [];
    Before(s11, Deliver, s12, steps, last);
    steps := [Deliver] + steps;
    Before(s10, Receive(l), s11, steps, last);
    steps := [Receive(l)] + steps;
    Before(s9, Answer(a, 0, 0), s10, steps, last);
    steps := [Answer(a, 0, 0)] + steps;
    Before(s8, Send(b, second), s9, steps, last);
    steps := [Send(b, second)] + steps;
    Before(s7, Register(b), s8, steps, last);
    steps := [Register(b)] + steps;
    Before(AfterFirst(a, first), Lease(b, 254), s7, steps, last);
    steps := [Lease(b, 254)] + steps;
    steps := FirstPing(a, first, steps, last);
  }

  lemma Stay(s: Net)
    ensures Leads(s, [], s)
  {}
}
