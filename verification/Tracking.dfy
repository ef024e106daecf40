/**
 * Allocation tracking (src/alloc/tracking.rs): sixteen buckets of two counters, each packing a count
 * and a size into one 64-bit atomic, drained now and then into wide totals. Every atomic operation
 * is a step of its own; allocations, frees and any number of gathers interleave freely.
 */
module Tracking {
  import opened Base

  const COUNT_LIMIT: nat := 0x4000_0000            // 2^30
  const SIZE_LIMIT: nat := 0x4_0000_0000           // 2^34
  const WORD: nat := 0x1_0000_0000_0000_0000       // 2^64

  datatype Counter = Counter(count: nat, size: nat)

  const ZERO := Counter(0, 0)

  function Plus(a: Counter, b: Counter): Counter {
    Counter(a.count + b.count, a.size + b.size)
  }

  lemma PlusZero(a: Counter)
    ensures Plus(a, ZERO) == a == Plus(ZERO, a)
  {}

  // ---- Packing ----

  /** 64-bit arithmetic wraps. */
  function Wrap(x: nat): U64 {
    x % WORD
  }

  /** count | (size << 30) for a single event: the low 30 bits of the shifted size are free. */
  function Pack(size: U64): U64 {
    var shifted := Wrap(size * COUNT_LIMIT);
    assert (size * COUNT_LIMIT) % COUNT_LIMIT == 0;
    1 + shifted
  }

  /** fetch_add. */
  function AddPacked(packed: U64, size: U64): U64 {
    Wrap(packed + Pack(size))
  }

  function Unpack(packed: U64): Counter {
    Counter(packed % COUNT_LIMIT, (packed / COUNT_LIMIT) % SIZE_LIMIT)
  }

  /** The word that stands for a total, whatever the total. */
  function Word(total: Counter): U64 {
    Wrap(total.count + total.size * COUNT_LIMIT)
  }

  /** Packed adds follow the true totals modulo the word. */
  lemma AddFollows(total: Counter, size: U64)
    ensures AddPacked(Word(total), size) == Word(Plus(total, Counter(1, size)))
  {
    hide Wrap;
    var c, s := total.count, total.size;
    Distribute(c, s, size);
    WrapSum(c + s * COUNT_LIMIT, size * COUNT_LIMIT);
  }

  lemma Distribute(c: nat, s: nat, size: nat)
    ensures (c + s * COUNT_LIMIT) + 1 + size * COUNT_LIMIT == c + 1 + (s + size) * COUNT_LIMIT
  {}

  lemma WrapSum(x: nat, y: nat)
    ensures Wrap(Wrap(x) + (1 + Wrap(y))) == Wrap(x + 1 + y)
  {}

  /** What a drain reads: an overflowing count spills into the size, an overflowing size is lost. */
  lemma DrainReads(total: Counter)
    ensures Unpack(Word(total)) ==
            Counter(total.count % COUNT_LIMIT, (total.size + total.count / COUNT_LIMIT) % SIZE_LIMIT)
  {
    var c, s := total.count, total.size;
    var q, r := c / COUNT_LIMIT, c % COUNT_LIMIT;
    assert c + s * COUNT_LIMIT == r + (q + s) * COUNT_LIMIT;
    UnpackParts(r, q + s);
  }

  lemma UnpackParts(r: nat, n: nat)
    requires r < COUNT_LIMIT
    ensures Unpack(Wrap(r + n * COUNT_LIMIT)) == Counter(r, n % SIZE_LIMIT)
  {
    var k, m := n / SIZE_LIMIT, n % SIZE_LIMIT;
    assert r + n * COUNT_LIMIT == (r + m * COUNT_LIMIT) + k * WORD;
    assert (r + n * COUNT_LIMIT) % WORD == r + m * COUNT_LIMIT;
  }

  /** A counter that a drain reads back whole. */
  predicate Fits(total: Counter) {
    total.count < COUNT_LIMIT && total.size < SIZE_LIMIT
  }

  /** Lexicographic order: `a` lost events or, with none lost, lost bytes. */
  predicate Short(a: Counter, b: Counter) {
    a.count < b.count || (a.count == b.count && a.size < b.size)
  }

  /** A drain returns the true totals exactly when both components are below their limits, and falls short otherwise. */
  lemma DrainIsExact(total: Counter)
    ensures Unpack(Word(total)) == total <==> Fits(total)
    ensures Fits(total) <==> total.count < 0x4000_0000 && total.size < 0x4_0000_0000
    ensures !Fits(total) ==> Short(Unpack(Word(total)), total)
  {
    DrainReads(total);
  }

  // ---- The interleaved system ----

  /** Sixteen buckets: cell 2b counts the allocations of bucket b, cell 2b + 1 its frees. */
  const CELLS: nat := 32

  predicate IsFree(cell: nat) {
    cell % 2 == 1
  }

  lemma Parity(bucket: nat)
    ensures IsFree(2 * bucket + 1) && !IsFree(2 * bucket)
  {}

  /** `owed` is what was recorded since the last drain. */
  datatype Cell = Cell(packed: U64, owed: Counter)

  datatype Totals = Totals(alloc: Counter, free: Counter)

  const NOTHING := Totals(ZERO, ZERO)

  function Lane(t: Totals, free: bool): Counter {
    if free then t.free else t.alloc
  }

  function AddTo(t: Totals, free: bool, c: Counter): Totals {
    if free then t.(free := Plus(t.free, c)) else t.(alloc := Plus(t.alloc, c))
  }

  /** The four stored totals, in the order in which a gather adds to them. */
  function Part(t: Totals, part: nat): Totals {
    match part
    case 0 => Totals(Counter(t.alloc.count, 0), ZERO)
    case 1 => Totals(Counter(0, t.alloc.size), ZERO)
    case 2 => Totals(ZERO, Counter(t.free.count, 0))
    case _ => Totals(ZERO, Counter(0, t.free.size))
  }

  function PlusTotals(a: Totals, b: Totals): Totals {
    Totals(Plus(a.alloc, b.alloc), Plus(a.free, b.free))
  }

  /** A gather in progress: what it has drained, and how many drains and commits it has done. */
  datatype Gathering = Gathering(done: nat, drained: Totals)

  datatype System = System(cells: seq<Cell>, gathers: seq<Gathering>, stored: Totals, exact: Totals)

  datatype Step = Record(cell: nat, size: U64) | Begin | Drain(gather: nat) | Commit(gather: nat)

  predicate Enabled(s: System, e: Step) {
    match e
    case Record(c, _) => c < |s.cells|
    case Begin => true
    case Drain(g) => g < |s.gathers| && s.gathers[g].done < |s.cells|
    case Commit(g) => g < |s.gathers| && |s.cells| <= s.gathers[g].done < |s.cells| + 4
  }

  function Fire(s: System, e: Step): System
    requires Enabled(s, e)
  {
    match e
    case Record(c, size) =>
      var cell := s.cells[c];
      s.(cells := s.cells[c := Cell(AddPacked(cell.packed, size), Plus(cell.owed, Counter(1, size)))],
         exact := AddTo(s.exact, IsFree(c), Counter(1, size)))
    case Begin => s.(gathers := s.gathers + [Gathering(0, NOTHING)])
    case Drain(g) =>
      var c := s.gathers[g].done;
      s.(cells := s.cells[c := Cell(0, ZERO)],
         gathers := s.gathers[g := Gathering(c + 1, AddTo(s.gathers[g].drained, IsFree(c), Unpack(s.cells[c].packed)))])
    case Commit(g) =>
      var at := s.gathers[g];
      var moved := Part(at.drained, at.done - |s.cells|);
      s.(stored := PlusTotals(s.stored, moved),
         gathers := s.gathers[g := Gathering(at.done + 1, Less(at.drained, moved))])
  }

  /** What a gather still carries once `part` of it is stored. */
  function Less(t: Totals, part: Totals): Totals {
    Totals(LessCounter(t.alloc, part.alloc), LessCounter(t.free, part.free))
  }

  function LessCounter(a: Counter, b: Counter): Counter {
    Counter(if b.count <= a.count then a.count - b.count else 0, if b.size <= a.size then a.size - b.size else 0)
  }

  /** What is still in the cells of one kind. */
  function Owed(cells: seq<Cell>, free: bool): Counter {
    if cells == [] then ZERO
    else
      var n := |cells| - 1;
      Plus(Owed(cells[..n], free), if IsFree(n) == free then cells[n].owed else ZERO)
  }

  /** What gathers have drained and not yet stored. */
  function Carried(gathers: seq<Gathering>, free: bool): Counter {
    if gathers == [] then ZERO
    else
      var n := |gathers| - 1;
      Plus(Carried(gathers[..n], free), Lane(gathers[n].drained, free))
  }

  lemma {:induction false} OwedUpdate(cells: seq<Cell>, i: nat, c: Cell, free: bool)
    requires i < |cells|
    ensures IsFree(i) != free ==> Owed(cells[i := c], free) == Owed(cells, free)
    ensures IsFree(i) == free ==> Plus(Owed(cells[i := c], free), cells[i].owed) == Plus(Owed(cells, free), c.owed)
  {
    hide IsFree;
    var n := |cells| - 1;
    if i == n {
      assert cells[i := c][..n] == cells[..n];
    } else {
      OwedUpdate(cells[..n], i, c, free);
      assert cells[i := c][..n] == cells[..n][i := c];
    }
  }

  lemma {:induction false} CarriedUpdate(gathers: seq<Gathering>, i: nat, g: Gathering, free: bool)
    requires i < |gathers|
    ensures Plus(Carried(gathers[i := g], free), Lane(gathers[i].drained, free)) ==
            Plus(Carried(gathers, free), Lane(g.drained, free))
  {
    var n := |gathers| - 1;
    if i == n {
      assert gathers[i := g][..n] == gathers[..n];
    } else {
      CarriedUpdate(gathers[..n], i, g, free);
      assert gathers[i := g][..n] == gathers[..n][i := g];
    }
  }

  /** Everything the system still knows of: stored, carried by a gather, or owed by a cell. */
  ghost function Tracked(s: System, free: bool): Counter {
    Plus(Plus(Lane(s.stored, free), Carried(s.gathers, free)), Owed(s.cells, free))
  }

  /** Every event is tracked, once. */
  ghost predicate Balanced(s: System) {
    Tracked(s, false) == s.exact.alloc && Tracked(s, true) == s.exact.free
  }

  /** Losses of one kind are never made up by the other, or by wrapping past the true total. */
  ghost predicate NeverOver(s: System) {
    && (Tracked(s, false) == s.exact.alloc || Short(Tracked(s, false), s.exact.alloc))
    && (Tracked(s, true) == s.exact.free || Short(Tracked(s, true), s.exact.free))
  }

  ghost predicate WordsTrue(s: System) {
    forall c :: 0 <= c < |s.cells| ==> s.cells[c].packed == Word(s.cells[c].owed)
  }

  ghost predicate Inv(s: System) {
    WordsTrue(s) && NeverOver(s)
  }

  /** The cell about to be drained has not overflowed. */
  predicate InTime(s: System, e: Step)
    requires Enabled(s, e)
  {
    e.Drain? ==> Fits(s.cells[s.gathers[e.gather].done].owed)
  }

  lemma WordsKept(s: System, e: Step)
    requires WordsTrue(s) && Enabled(s, e)
    ensures WordsTrue(Fire(s, e))
  {
    hide AddPacked, Word, Unpack;
    assert Word(ZERO) == 0 by { ZeroWord(); }
    if e.Record? {
      AddFollows(s.cells[e.cell].owed, e.size);
    }
  }

  lemma ZeroWord()
    ensures Word(ZERO) == 0
  {}

  /** Recording adds the same to both sides; beginning and committing change neither. */
  lemma StepTracks(s: System, e: Step, free: bool)
    requires Enabled(s, e) && !e.Drain?
    ensures Plus(Tracked(Fire(s, e), free), Lane(s.exact, free)) == Plus(Tracked(s, free), Lane(Fire(s, e).exact, free))
  {
    hide AddPacked, Unpack, IsFree, Owed, Part, Less, PlusTotals;
    var s' := Fire(s, e);
    match e
    case Record(c, size) => OwedUpdate(s.cells, c, s'.cells[c], free);
    case Begin => assert s'.gathers[..|s.gathers|] == s.gathers;
    case Commit(g) =>
      CarriedUpdate(s.gathers, g, s'.gathers[g], free);
      PartMoves(s.stored, s.gathers[g].drained, s.gathers[g].done - |s.cells|, free);
    case Drain(_) =>
  }

  /** Moving a part from a gather to the stored totals keeps their sum. */
  lemma PartMoves(stored: Totals, t: Totals, part: nat, free: bool)
    ensures Plus(Lane(PlusTotals(stored, Part(t, part)), free), Lane(Less(t, Part(t, part)), free)) ==
            Plus(Lane(stored, free), Lane(t, free))
  {}

  /** A drain replaces what its cell owed by what the word says. */
  lemma DrainTracks(s: System, g: nat, free: bool)
    requires WordsTrue(s) && Enabled(s, Drain(g))
    ensures var c := s.gathers[g].done;
            var after := Tracked(Fire(s, Drain(g)), free);
            if IsFree(c) == free
            then Plus(after, s.cells[c].owed) == Plus(Tracked(s, free), Unpack(Word(s.cells[c].owed)))
            else after == Tracked(s, free)
    ensures Fire(s, Drain(g)).exact == s.exact
  {
    hide AddPacked, Word, Unpack, Owed, Carried, IsFree;
    var c := s.gathers[g].done;
    OwedUpdate(s.cells, c, Cell(0, ZERO), free);
    CarriedUpdate(s.gathers, g, Fire(s, Drain(g)).gathers[g], free);
  }

  /** One step: balance survives exactly the steps that are in time, and a loss is never made up. */
  lemma FireTracks(s: System, e: Step)
    requires Inv(s) && Enabled(s, e)
    ensures Inv(Fire(s, e))
    ensures Balanced(Fire(s, e)) <==> Balanced(s) && InTime(s, e)
  {
    hide Fire, Tracked, WordsTrue, Unpack, Word, IsFree;
    WordsKept(s, e);
    if e.Drain? {
      DrainTracks(s, e.gather, false);
      DrainTracks(s, e.gather, true);
      DrainIsExact(s.cells[s.gathers[e.gather].done].owed);
    } else {
      StepTracks(s, e, false);
      StepTracks(s, e, true);
    }
  }

  ghost predicate Leads(s: System, steps: seq<Step>, s': System)
    decreases |steps|
  {
    if steps == [] then s' == s else Enabled(s, steps[0]) && Leads(Fire(s, steps[0]), steps[1..], s')
  }

  ghost predicate AllInTime(s: System, steps: seq<Step>, s': System)
    requires Leads(s, steps, s')
    decreases |steps|
  {
    steps != [] ==> InTime(s, steps[0]) && AllInTime(Fire(s, steps[0]), steps[1..], s')
  }

  /** Any interleaving: every event stays accounted for exactly when every drain came in time. */
  lemma {:induction false} RunConserves(s: System, steps: seq<Step>, s': System)
    requires Inv(s) && Leads(s, steps, s')
    ensures Inv(s')
    ensures Balanced(s') <==> Balanced(s) && AllInTime(s, steps, s')
    decreases |steps|
  {
    hide Inv, Fire, Enabled, InTime, Balanced;
    if steps != [] {
      FireTracks(s, steps[0]);
      RunConserves(Fire(s, steps[0]), steps[1..], s');
    }
  }

  /** Nothing recorded, nothing gathered. */
  ghost predicate Starts(s: System) {
    && |s.cells| == CELLS && s.gathers == [] && s.stored == NOTHING && s.exact == NOTHING
    && forall i :: 0 <= i < |s.cells| ==> s.cells[i] == Cell(0, ZERO)
  }

  lemma {:induction false} NothingOwed(cells: seq<Cell>, free: bool)
    requires forall i :: 0 <= i < |cells| ==> cells[i] == Cell(0, ZERO)
    ensures Owed(cells, free) == ZERO
  {
    hide IsFree, Plus;
    if cells != [] {
      var n := |cells| - 1;
      NothingOwed(cells[..n], free);
      PlusZero(ZERO);
      assert cells[n].owed == ZERO;
      assert Owed(cells[..n], free) == ZERO;
    }
  }

  lemma StartsBalanced(s: System)
    requires Starts(s)
    ensures Inv(s) && Balanced(s)
  {
    hide IsFree, Owed, Word, Plus;
    ZeroWord();
    PlusZero(ZERO);
    NothingOwed(s.cells, false);
    NothingOwed(s.cells, true);
  }

  lemma {:induction false} NothingCarried(gathers: seq<Gathering>, free: bool)
    requires forall g :: g in gathers ==> g.drained == NOTHING
    ensures Carried(gathers, free) == ZERO
  {
    hide Plus;
    if gathers != [] {
      var n := |gathers| - 1;
      NothingCarried(gathers[..n], free);
      PlusZero(ZERO);
      assert gathers[n] in gathers;
    }
  }

  /**
   * At rest, with no gather under way and every cell drained, the stored totals are the exact
   * totals if and only if no drain of the whole run came too late.
   */
  lemma RestIsExact(s: System, steps: seq<Step>, s': System)
    requires Starts(s) && Leads(s, steps, s') && Quiet(s'.gathers)
    requires forall i :: 0 <= i < |s'.cells| ==> s'.cells[i] == Cell(0, ZERO)
    ensures s'.stored == s'.exact <==> AllInTime(s, steps, s')
  {
    hide Starts, Inv, Leads, AllInTime, Balanced;
    StartsBalanced(s);
    RunConserves(s, steps, s');
    RestBalance(s');
  }

  // ---- The accumulator, one call at a time ----

  /** No gather has anything left to store. */
  ghost predicate Quiet(gathers: seq<Gathering>) {
    forall g :: g in gathers ==> g.drained == NOTHING
  }

  lemma QuietAll(gathers: seq<Gathering>, g: nat)
    requires |gathers| == g + 1 && Quiet(gathers[..g]) && gathers[g].drained == NOTHING
    ensures Quiet(gathers)
  {
    assert gathers == gathers[..g] + [gathers[g]];
  }

  class StatsAccumulator {
    /** The packed words, allocations and frees of each bucket in turn. */
    const words: array<U64>
    var stored: Totals

    /** The system as the calls so far have moved it. */
    ghost var sys: System

    ghost predicate Holds()
      reads this, words
    {
      && words.Length == CELLS == |sys.cells|
      && (forall i :: 0 <= i < CELLS ==> words[i] == sys.cells[i].packed)
      && stored == sys.stored
    }

    ghost predicate Valid()
      reads this, words
    {
      Holds() && Inv(sys) && Quiet(sys.gathers)
    }

    constructor ()
      ensures Valid() && fresh(words) && Starts(sys) && Balanced(sys)
    {
      words := new U64[CELLS](_ => 0);
      stored := NOTHING;
      sys := System(seq(CELLS, _ => Cell(0, ZERO)), [], NOTHING, NOTHING);
      new;
      hide Inv, Balanced;
      StartsBalanced(sys);
    }

    /** One atomic add. */
    method Add(cell: nat, size: U64)
      requires Valid() && cell < CELLS
      modifies this`sys, words
      ensures Valid() && sys == Fire(old(sys), Record(cell, size))
    {
      hide Inv, AddPacked;
      FireTracks(sys, Record(cell, size));
      words[cell] := AddPacked(words[cell], size);
      sys := Fire(sys, Record(cell, size));
    }

    /** The bucket comes from hashing the block's address. */
    method Alloc(bucket: nat, size: U64)
      requires Valid() && bucket < CELLS / 2
      modifies this`sys, words
      ensures Valid() && sys == Fire(old(sys), Record(2 * bucket, size))
      ensures sys.exact == old(sys.exact).(
                alloc := Counter(old(sys.exact).alloc.count + 1, old(sys.exact).alloc.size + size))
    {
      hide Inv, AddPacked, IsFree;
      Parity(bucket);
      Add(2 * bucket, size);
    }

    method Dealloc(bucket: nat, size: U64)
      requires Valid() && bucket < CELLS / 2
      modifies this`sys, words
      ensures Valid() && sys == Fire(old(sys), Record(2 * bucket + 1, size))
      ensures sys.exact == old(sys.exact).(
                free := Counter(old(sys.exact).free.count + 1, old(sys.exact).free.size + size))
    {
      hide Inv, AddPacked, IsFree;
      Parity(bucket);
      Add(2 * bucket + 1, size);
    }

    /** A free of the old size, then an allocation of the new one, in the bucket of the new block. */
    method Realloc(bucket: nat, size: U64, newSize: U64)
      requires Valid() && bucket < CELLS / 2
      modifies this`sys, words
      ensures Valid()
      ensures sys == Fire(Fire(old(sys), Record(2 * bucket + 1, size)), Record(2 * bucket, newSize))
      ensures sys.exact.free == Counter(old(sys.exact).free.count + 1, old(sys.exact).free.size + size)
      ensures sys.exact.alloc == Counter(old(sys.exact).alloc.count + 1, old(sys.exact).alloc.size + newSize)
    {
      hide AddPacked, Inv, AddTo;
      Dealloc(bucket, size);
      Alloc(bucket, newSize);
    }

    /**
     * Drains every cell in turn and adds the sums to the stored totals. The result is exact if and
     * only if nothing was lost before and no cell had overflowed.
     */
    method Gather() returns (stats: Totals)
      requires Valid()
      modifies this, words
      ensures Valid() && stats == stored && sys.exact == old(sys.exact)
      ensures forall i :: 0 <= i < CELLS ==> sys.cells[i] == Cell(0, ZERO)
      ensures Balanced(sys) <==> Balanced(old(sys)) && forall i :: 0 <= i < CELLS ==> Fits(old(sys.cells)[i].owed)
      ensures stats == sys.exact <==> Balanced(sys)
    {
      hide Inv, Balanced, Unpack, AddTo, IsFree, Fits;
      ghost var was := sys;
      ghost var g := |sys.gathers|;
      FireTracks(sys, Begin);
      sys := Fire(sys, Begin);
      stats := NOTHING;
      for i := 0 to CELLS
        invariant Holds() && Inv(sys) && stored == was.stored && sys.exact == was.exact
        invariant sys.gathers == was.gathers + [Gathering(i, stats)]
        invariant forall j :: 0 <= j < i ==> sys.cells[j] == Cell(0, ZERO)
        invariant forall j :: i <= j < CELLS ==> sys.cells[j] == was.cells[j]
        invariant Balanced(sys) <==> Balanced(was) && forall j :: 0 <= j < i ==> Fits(was.cells[j].owed)
      {
        FireTracks(sys, Drain(g));
        stats := AddTo(stats, IsFree(i), Unpack(words[i]));
        words[i] := 0;
        sys := Fire(sys, Drain(g));
      }
      Store(g, stats);
      stats := stored;
      RestBalance(sys);
    }

    /** The four atomic adds to the stored totals. */
    method Store(ghost g: nat, stats: Totals)
      requires Holds() && Inv(sys) && |sys.gathers| == g + 1
      requires Quiet(sys.gathers[..g]) && sys.gathers[g] == Gathering(CELLS, stats)
      modifies this
      ensures Valid() && sys.exact == old(sys.exact) && sys.cells == old(sys.cells)
      ensures stored == PlusTotals(old(stored), stats)
      ensures Balanced(sys) <==> Balanced(old(sys))
    {
      hide Inv, Balanced, Quiet;
      stored := stored.(alloc := stored.alloc.(count := stored.alloc.count + stats.alloc.count));
      Committed(g);
      stored := stored.(alloc := stored.alloc.(size := stored.alloc.size + stats.alloc.size));
      Committed(g);
      stored := stored.(free := stored.free.(count := stored.free.count + stats.free.count));
      Committed(g);
      stored := stored.(free := stored.free.(size := stored.free.size + stats.free.size));
      Committed(g);
      assert sys.gathers[..g] == old(sys).gathers[..g];
      QuietAll(sys.gathers, g);
    }

    ghost method Committed(g: nat)
      requires Inv(sys) && Enabled(sys, Commit(g))
      modifies this`sys
      ensures Inv(sys) && (Balanced(sys) <==> Balanced(old(sys)))
      ensures sys.cells == old(sys).cells && sys.exact == old(sys).exact
      ensures var at := old(sys).gathers[g];
              var moved := Part(at.drained, at.done - |sys.cells|);
              && sys.stored == PlusTotals(old(sys).stored, moved)
              && sys.gathers == old(sys).gathers[g := Gathering(at.done + 1, Less(at.drained, moved))]
    {
      hide Inv, Balanced, Part, PlusTotals, Less;
      FireTracks(sys, Commit(g));
      sys := Fire(sys, Commit(g));
    }
  }

  /** With nothing carried and nothing owed, what is tracked is what is stored. */
  lemma RestBalance(s: System)
    requires Quiet(s.gathers) && forall i :: 0 <= i < |s.cells| ==> s.cells[i] == Cell(0, ZERO)
    ensures Balanced(s) <==> s.stored == s.exact
  {
    hide IsFree, Owed, Carried, Plus;
    NothingOwed(s.cells, false);
    NothingOwed(s.cells, true);
    NothingCarried(s.gathers, false);
    NothingCarried(s.gathers, true);
    PlusZero(s.stored.alloc);
    PlusZero(s.stored.free);
  }
}
