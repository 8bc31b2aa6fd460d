/**
 Callers racing for one key of the standalone cache.

 A claim and a count are each a read, a swap of what was read, and a write of what was swapped
 in, with other callers free to move in between. The clock of each read is a parameter of it.
 */
module SledRaces {
  import opened Bytes
  import opened Common
  import opened SledTrees

  type Cell = Option<seq<Byte>>

  predicate Live(cell: Cell, now: nat) {
    cell.Some? && ValueOf(cell.value, now).Some?
  }

  // ----- claims -----

  /** Where one claim has got to, and how often it has gone round. */
  datatype Claimer =
    | Reading(loops: nat)
    | Swapping(seen: Cell, loops: nat)
    | Writing(loops: nat)
    | Told(took: bool, loops: nat)

  datatype ClaimStep = Read(who: nat, now: nat) | Swap(who: nat) | Write(who: nat)

  /** One key, the claimers after it, and the entry each would put there. */
  datatype Race = Race(cell: Cell, claimers: seq<Claimer>, entries: seq<seq<Byte>>)

  predicate StepEnabled(r: Race, s: ClaimStep) {
    && s.who < |r.claimers| == |r.entries|
    && match s
       case Read(who, _) => r.claimers[who].Reading?
       case Swap(who) => r.claimers[who].Swapping?
       case Write(who) => r.claimers[who].Writing?
  }

  function StepNext(r: Race, s: ClaimStep): Race
    requires StepEnabled(r, s)
  {
    var loops := r.claimers[s.who].loops;
    match s
    case Read(who, now) =>
      r.(claimers := r.claimers[who := if Live(r.cell, now) then Told(false, loops) else Swapping(r.cell, loops)])
    case Swap(who) =>
      if r.cell == r.claimers[who].seen then
        r.(cell := Some(r.entries[who]), claimers := r.claimers[who := Writing(loops)])
      else
        r.(claimers := r.claimers[who := Reading(loops + 1)])
    case Write(who) =>
      r.(cell := Some(r.entries[who]), claimers := r.claimers[who := Told(true, loops)])
  }

  predicate LegalRace(r: Race, run: seq<ClaimStep>)
    decreases run
  {
    run == [] || (StepEnabled(r, run[0]) && LegalRace(StepNext(r, run[0]), run[1..]))
  }

  function AfterRace(r: Race, run: seq<ClaimStep>): Race
    requires LegalRace(r, run)
    decreases run
  {
    if run == [] then r else AfterRace(StepNext(r, run[0]), run[1..])
  }

  /** Every claimer about to read for the first time. */
  function StartLine(cell: Cell, entries: seq<seq<Byte>>): Race {
    Race(cell, seq(|entries|, i => Reading(1)), entries)
  }

  /** No ttl passes during the race: every clock read finds the old entry dead and a new one alive. */
  predicate Undisturbed(start: Cell, entries: seq<seq<Byte>>, now: nat) {
    !Live(start, now) && forall i :: 0 <= i < |entries| ==> Live(Some(entries[i]), now)
  }

  predicate HasTaken(c: Claimer) {
    c.Writing? || (c.Told? && c.took)
  }

  predicate Behind(c: Claimer, start: Cell) {
    match c
    case Reading(loops) => 1 <= loops <= 2
    case Swapping(seen, loops) => seen == start && loops == 1
    case Writing(_) => false
    case Told(took, loops) => !took && loops <= 2
  }

  /** Before anyone has taken the key, nobody has gone round twice. */
  predicate Untaken(r: Race, start: Cell) {
    r.cell == start && forall i :: 0 <= i < |r.claimers| ==>
      r.claimers[i] == Reading(1) || r.claimers[i] == Swapping(start, 1)
  }

  /** Once one has, the key holds its entry and everyone else is on the way to being told no. */
  predicate TakenBy(r: Race, start: Cell, winner: nat) {
    && winner < |r.claimers| == |r.entries|
    && r.cell == Some(r.entries[winner])
    && HasTaken(r.claimers[winner]) && r.claimers[winner].loops == 1
    && forall i :: 0 <= i < |r.claimers| && i != winner ==> Behind(r.claimers[i], start)
  }

  ghost predicate RaceFits(r: Race, start: Cell) {
    && |r.claimers| == |r.entries|
    && (Untaken(r, start) || exists winner :: TakenBy(r, start, winner))
  }

  lemma RaceStepKeeps(r: Race, s: ClaimStep, start: Cell)
    requires RaceFits(r, start) && StepEnabled(r, s)
    requires s.Read? ==> Undisturbed(start, r.entries, s.now)
    requires forall i :: 0 <= i < |r.entries| ==> start != Some(r.entries[i])
    ensures RaceFits(StepNext(r, s), start)
  {
    hide Live;
    var r' := StepNext(r, s);
    if Untaken(r, start) {
      if s.Swap? {
        assert TakenBy(r', start, s.who);
      } else {
        assert Untaken(r', start);
      }
    } else {
      var winner :| TakenBy(r, start, winner);
      assert TakenBy(r', start, winner);
    }
  }

  lemma {:induction false} RaceKeeps(r: Race, run: seq<ClaimStep>, start: Cell)
    requires RaceFits(r, start) && LegalRace(r, run)
    requires forall s :: s in run && s.Read? ==> Undisturbed(start, r.entries, s.now)
    requires forall i :: 0 <= i < |r.entries| ==> start != Some(r.entries[i])
    ensures RaceFits(AfterRace(r, run), start) && AfterRace(r, run).entries == r.entries
    decreases run
  {
    if run != [] {
      assert run[0] in run;
      RaceStepKeeps(r, run[0], start);
      RaceKeeps(StepNext(r, run[0]), run[1..], start);
    }
  }

  /**
   However the steps of any number of claimers fall, at most one takes a key that was free when
   they began; once all have been told, exactly one was told yes; and nobody goes round more than
   twice.
   */
  lemma OneClaimerTakesTheKey(cell: Cell, entries: seq<seq<Byte>>, run: seq<ClaimStep>, from: nat)
    requires LegalRace(StartLine(cell, entries), run) && |entries| > 0
    requires Undisturbed(cell, entries, from)
    requires forall s :: s in run && s.Read? ==> Undisturbed(cell, entries, s.now)
    ensures
      var end := AfterRace(StartLine(cell, entries), run).claimers;
      && |end| == |entries|
      && (forall i :: 0 <= i < |end| ==> end[i].loops <= 2)
      && (forall i, j :: 0 <= i < |end| && 0 <= j < |end| && HasTaken(end[i]) && HasTaken(end[j]) ==> i == j)
      && ((forall i :: 0 <= i < |end| ==> end[i].Told?) ==> exists i :: 0 <= i < |end| && end[i].took)
  {
    hide Live;
    var r := StartLine(cell, entries);
    assert Untaken(r, cell);
    forall i | 0 <= i < |entries| ensures cell != Some(entries[i]) {
      assert Live(Some(entries[i]), from);
    }
    RaceKeeps(r, run, cell);
    var end := AfterRace(r, run);
    if Untaken(end, cell) {
      assert !end.claimers[0].Told?;
    } else {
      var winner :| TakenBy(end, cell, winner);
    }
  }

  /** A stamped entry holds its key until exactly its ttl has passed, and nothing holds a key that was never written. */
  lemma AnEntryLivesForItsTtl(value: seq<Byte>, ttl: Option<nat>, written: nat, now: nat)
    requires now < U64_MAX
    ensures Live(Some(Stamped(value, ttl, written)), now) <==> ttl.None? || now < written + ttl.value
    ensures !Live(None, now)
  {
    hide Stamped, ValueOf;
    StampedReadsBack(value, ttl, written, now);
  }

  /** A claimer left alone is told by steps of its own: no while the key is held, else yes with its entry put there. */
  lemma AClaimerLeftAloneIsTold(r: Race, i: nat, now: nat) returns (run: seq<ClaimStep>)
    requires i < |r.claimers| == |r.entries| && !r.claimers[i].Told?
    ensures LegalRace(r, run) && forall s :: s in run ==> s.who == i
    ensures
      var c := r.claimers[i];
      var overtaken := c.Swapping? && r.cell != c.seen;
      var loops := if overtaken then c.loops + 1 else c.loops;
      AfterRace(r, run) ==
        if (c.Reading? || overtaken) && Live(r.cell, now) then r.(claimers := r.claimers[i := Told(false, loops)])
        else Race(Some(r.entries[i]), r.claimers[i := Told(true, loops)], r.entries)
    decreases r.claimers[i].Swapping?
  {
    hide Live;
    var read, swap, write := Read(i, now), ClaimStep.Swap(i), ClaimStep.Write(i);
    match r.claimers[i] {
      case Reading(_) =>
        var seen := StepNext(r, read);
        if Live(r.cell, now) {
          run := [read];
          RaceRunsOn(r, read, []);
        } else {
          run := [read, swap, write];
          RaceRunsOn(StepNext(seen, swap), write, []);
          RaceRunsOn(seen, swap, [write]);
          RaceRunsOn(r, read, [swap, write]);
        }
      case Swapping(seen, loops) =>
        var swapped := StepNext(r, swap);
        if r.cell == seen {
          RaceRunsOn(swapped, write, []);
          run := [write];
        } else {
          run := AClaimerLeftAloneIsTold(swapped, i, now);
        }
        RaceRunsOn(r, swap, run);
        run := [swap] + run;
      case Writing(_) =>
        run := [write];
        RaceRunsOn(r, write, []);
    }
  }

  lemma RaceRunsOn(r: Race, s: ClaimStep, run: seq<ClaimStep>)
    requires StepEnabled(r, s) && LegalRace(StepNext(r, s), run)
    ensures LegalRace(r, [s] + run) && AfterRace(r, [s] + run) == AfterRace(StepNext(r, s), run)
  {
    assert ([s] + run)[1..] == run;
  }

  // ----- counts -----

  /** A stored count: the number, and the stamp its bytes begin with. */
  datatype Tagged = Tagged(total: nat, stamp: nat)

  /** Where one count has got to; what it was told is what it swapped in. */
  datatype Counter =
    | Counting
    | Holding(seen: Option<Tagged>)
    | Landing(entry: Tagged)
    | Counted(total: nat)

  datatype CountStep = Look(who: nat) | Put(who: nat, stamp: nat) | Settle(who: nat)

  /** One count that does not expire, the callers adding to it, and what each adds. */
  datatype Tallying = Tallying(held: Option<Tagged>, counters: seq<Counter>, amounts: seq<nat>)

  predicate CountEnabled(c: Tallying, s: CountStep) {
    && s.who < |c.counters| == |c.amounts|
    && match s
       case Look(who) => c.counters[who].Counting?
       case Put(who, _) => c.counters[who].Holding?
       case Settle(who) => c.counters[who].Landing?
  }

  function Standing(held: Option<Tagged>): nat {
    if held.Some? then held.value.total else 0
  }

  function CountNext(c: Tallying, s: CountStep): Tallying
    requires CountEnabled(c, s)
  {
    match s
    case Look(who) => c.(counters := c.counters[who := Holding(c.held)])
    case Put(who, stamp) =>
      var entry := Tagged(Standing(c.held) + c.amounts[who], stamp);
      if c.held == c.counters[who].seen then
        c.(held := Some(entry), counters := c.counters[who := Landing(entry)])
      else
        c.(counters := c.counters[who := Counting])
    case Settle(who) =>
      var entry := c.counters[who].entry;
      c.(held := Some(entry), counters := c.counters[who := Counted(entry.total)])
  }

  predicate LegalCounts(c: Tallying, run: seq<CountStep>)
    decreases run
  {
    run == [] || (CountEnabled(c, run[0]) && LegalCounts(CountNext(c, run[0]), run[1..]))
  }

  function AfterCounts(c: Tallying, run: seq<CountStep>): Tallying
    requires LegalCounts(c, run)
    decreases run
  {
    if run == [] then c else AfterCounts(CountNext(c, run[0]), run[1..])
  }

  /** What the callers whose swap has landed added between them. */
  function Added(counters: seq<Counter>, amounts: seq<nat>): nat
    requires |counters| == |amounts|
  {
    if counters == [] then 0
    else (if counters[0].Landing? || counters[0].Counted? then amounts[0] else 0) + Added(counters[1..], amounts[1..])
  }

  lemma {:induction false} AddedAt(counters: seq<Counter>, amounts: seq<nat>, at: nat, next: Counter)
    requires |counters| == |amounts| && at < |counters|
    requires !(counters[at].Landing? || counters[at].Counted?)
    ensures Added(counters[at := next], amounts) ==
            Added(counters, amounts) + if next.Landing? || next.Counted? then amounts[at] else 0
  {
    if at > 0 {
      AddedAt(counters[1..], amounts[1..], at - 1, next);
      assert counters[at := next][1..] == counters[1..][at - 1 := next];
    } else {
      assert counters[at := next][1..] == counters[1..];
    }
  }

  lemma {:induction false} AddedStays(counters: seq<Counter>, amounts: seq<nat>, at: nat, next: Counter)
    requires |counters| == |amounts| && at < |counters|
    requires counters[at].Landing? && next.Counted?
    ensures Added(counters[at := next], amounts) == Added(counters, amounts)
  {
    if at > 0 {
      AddedStays(counters[1..], amounts[1..], at - 1, next);
      assert counters[at := next][1..] == counters[1..][at - 1 := next];
    } else {
      assert counters[at := next][1..] == counters[1..];
    }
  }

  /** A swap that raises the count while another caller's landed swap has still to be settled. */
  predicate Overtakes(c: Tallying, s: CountStep)
    requires CountEnabled(c, s)
  {
    && s.Put? && c.held == c.counters[s.who].seen && c.amounts[s.who] > 0
    && exists i :: 0 <= i < |c.counters| && c.counters[i].Landing?
  }

  /** Whether no swap of a run overtakes another caller. */
  predicate Prompt(c: Tallying, run: seq<CountStep>)
    requires LegalCounts(c, run)
    decreases run
  {
    run != [] ==> !Overtakes(c, run[0]) && Prompt(CountNext(c, run[0]), run[1..])
  }

  /** Whether the count stands at what was added to it at every moment of a run. */
  predicate AlwaysRight(c: Tallying, run: seq<CountStep>, start: nat)
    requires LegalCounts(c, run) && |c.counters| == |c.amounts|
    decreases run
  {
    && Standing(c.held) == start + Added(c.counters, c.amounts)
    && (run != [] ==> AlwaysRight(CountNext(c, run[0]), run[1..], start))
  }

  ghost predicate CountFits(c: Tallying, start: nat) {
    && |c.counters| == |c.amounts|
    && Standing(c.held) == start + Added(c.counters, c.amounts)
    && (forall i :: 0 <= i < |c.counters| && c.counters[i].Landing? ==>
          c.held.Some? && c.held.value.total == c.counters[i].entry.total)
  }

  /** Before anyone has counted, a count stands where it stood. */
  lemma {:induction false} ACountBeginsRight(held: Option<Tagged>, counters: seq<Counter>, amounts: seq<nat>)
    requires |counters| == |amounts| && forall i :: 0 <= i < |counters| ==> counters[i].Counting?
    ensures CountFits(Tallying(held, counters, amounts), Standing(held))
  {
    if counters != [] {
      ACountBeginsRight(held, counters[1..], amounts[1..]);
    }
  }

  /** A caller left alone is counted by steps of its own, on top of what then stands or as it had landed already. */
  lemma ACallerLeftAloneIsCounted(c: Tallying, i: nat, stamp: nat) returns (run: seq<CountStep>)
    requires i < |c.counters| == |c.amounts| && !c.counters[i].Counted?
    ensures LegalCounts(c, run) && forall s :: s in run ==> s.who == i
    ensures
      var landed := c.counters[i].Landing?;
      var end := AfterCounts(c, run);
      && end.amounts == c.amounts && end.held.Some?
      && end.counters == c.counters[i := Counted(end.held.value.total)]
      && (landed ==> end.held.value == c.counters[i].entry)
      && (!landed ==> end.held.value.total == Standing(c.held) + c.amounts[i])
    decreases c.counters[i].Holding? && c.counters[i].seen != c.held, c.counters[i].Counting?
  {
    hide LegalCounts, AfterCounts;
    var settle := Settle(i);
    match c.counters[i] {
      case Counting =>
        var next := CountFirst(c, Look(i), []);
        run := ACallerLeftAloneIsCounted(next, i, stamp);
        next := CountFirst(c, Look(i), run);
        run := [Look(i)] + run;
      case Holding(seen) =>
        var put := Put(i, stamp);
        var next := CountFirst(c, put, []);
        if c.held == seen {
          NothingFurther(CountNext(next, settle));
          var end := CountFirst(next, settle, []);
          run := [settle] + [];
        } else {
          run := ACallerLeftAloneIsCounted(next, i, stamp);
        }
        next := CountFirst(c, put, run);
        run := [put] + run;
      case Landing(_) =>
        NothingFurther(CountNext(c, settle));
        var end := CountFirst(c, settle, []);
        run := [settle] + [];
    }
  }

  predicate AllSettled(c: Tallying) {
    forall i :: 0 <= i < |c.counters| ==> !c.counters[i].Landing?
  }

  lemma AddedNext(c: Tallying, s: CountStep)
    requires CountEnabled(c, s)
    ensures Added(CountNext(c, s).counters, c.amounts) == Added(c.counters, c.amounts) +
            if s.Put? && c.held == c.counters[s.who].seen then c.amounts[s.who] else 0
  {
    var next := CountNext(c, s).counters[s.who];
    if s.Settle? {
      AddedStays(c.counters, c.amounts, s.who, next);
    } else {
      AddedAt(c.counters, c.amounts, s.who, next);
    }
  }

  /** While no swap overtakes another caller, the count stands at exactly what was added to it. */
  lemma {:induction false} PromptCountsAddUp(c: Tallying, run: seq<CountStep>, start: nat)
    requires CountFits(c, start) && LegalCounts(c, run) && Prompt(c, run)
    ensures CountFits(AfterCounts(c, run), start) && AlwaysRight(c, run, start)
    decreases run
  {
    if run != [] {
      AddedNext(c, run[0]);
      PromptCountsAddUp(CountNext(c, run[0]), run[1..], start);
    }
  }

  /** A landed total that has fallen behind is never settled while the count stays right. */
  lemma {:induction false} AStaleTotalStays(c: Tallying, run: seq<CountStep>, start: nat, i: nat)
    requires LegalCounts(c, run) && |c.counters| == |c.amounts| && AlwaysRight(c, run, start)
    requires i < |c.counters| && c.counters[i].Landing? && c.counters[i].entry.total < Standing(c.held)
    ensures i < |AfterCounts(c, run).counters| && AfterCounts(c, run).counters[i].Landing?
    decreases run
  {
    if run != [] {
      AddedNext(c, run[0]);
      AStaleTotalStays(CountNext(c, run[0]), run[1..], start, i);
    }
  }

  /**
   When counting is right. Over any run that ends with every landed swap settled, the count stands
   at what was added to it at every moment if and only if no swap overtook another caller.
   */
  lemma {:induction false} CountsAreRightExactly(c: Tallying, run: seq<CountStep>, start: nat)
    requires CountFits(c, start) && LegalCounts(c, run)
    requires AllSettled(AfterCounts(c, run))
    ensures AlwaysRight(c, run, start) <==> Prompt(c, run)
    decreases run
  {
    if Prompt(c, run) {
      PromptCountsAddUp(c, run, start);
    } else if AlwaysRight(c, run, start) {
      var c' := CountNext(c, run[0]);
      AddedNext(c, run[0]);
      assert AfterCounts(c, run) == AfterCounts(c', run[1..]);
      if Overtakes(c, run[0]) {
        var i :| 0 <= i < |c.counters| && c.counters[i].Landing?;
        AStaleTotalStays(c', run[1..], start, i);
      } else {
        CountsAreRightExactly(c', run[1..], start);
      }
    }
  }

  /**
   A write that settles late puts an older total back: two callers are told `first` and
   `first + second`, and the count is left at `first`.
   */
  lemma ALateWriteLosesACount(first: nat, second: nat, early: nat, late: nat)
    ensures
      var c := Tallying(None, [Counting, Counting], [first, second]);
      var run := [Look(0), Put(0, early), Look(1), Put(1, late), Settle(1), Settle(0)];
      && LegalCounts(c, run)
      && AfterCounts(c, run).counters == [Counted(first), Counted(first + second)]
      && AfterCounts(c, run).held == Some(Tagged(first, early))
  {
    hide LegalCounts, AfterCounts;
    var c := Tallying(None, [Counting, Counting], [first, second]);
    var run := [Look(0), Put(0, early), Look(1), Put(1, late), Settle(1), Settle(0)];
    var c1 := CountFirst(c, Look(0), run[1..]);
    var c2 := CountFirst(c1, Put(0, early), run[2..]);
    var c3 := CountFirst(c2, Look(1), run[3..]);
    var c4 := CountFirst(c3, Put(1, late), run[4..]);
    var c5 := CountFirst(c4, Settle(1), run[5..]);
    var c6 := CountFirst(c5, Settle(0), []);
    NothingFurther(c6);
    assert run == [Look(0)] + run[1..] && run[1..] == [Put(0, early)] + run[2..] && run[2..] == [Look(1)] + run[3..];
    assert run[3..] == [Put(1, late)] + run[4..] && run[4..] == [Settle(1)] + run[5..] && run[5..] == [Settle(0)] + [];
  }

  lemma NothingFurther(c: Tallying)
    ensures LegalCounts(c, []) && AfterCounts(c, []) == c
  {
  }

  lemma CountFirst(c: Tallying, s: CountStep, rest: seq<CountStep>) returns (next: Tallying)
    requires CountEnabled(c, s)
    ensures next == CountNext(c, s)
    ensures LegalCounts(c, [s] + rest) <==> LegalCounts(next, rest)
    ensures LegalCounts(next, rest) ==> AfterCounts(c, [s] + rest) == AfterCounts(next, rest)
  {
    next := CountNext(c, s);
    assert ([s] + rest)[1..] == rest;
  }
}
