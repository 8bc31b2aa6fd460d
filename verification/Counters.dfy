/**
 Requests counted against a limit at the same time.

 The count of one stretch is a cell every call reads or changes at once: reading it, seeding it
 where there is none, and adding to it. Everything between two calls of one request may be
 interleaved with the calls of others. The cell keeps what it holds for the whole stretch.
 */
module Counters {
  import opened Common
  import opened Sums

  /** What starting a count at `start` leaves: the first to seed decides. */
  function Seeded(cell: Option<nat>, start: nat): nat {
    if cell.Some? then cell.value else start
  }

  // ----- a rate: every request counted, the ones past the allowance refused -----

  datatype Caller =
    | Looking
    | Missing                // nothing counted yet; about to ask storage what was spent
    | Seeding(spent: nat)
    | Counting
    | Counted(made: nat)

  datatype RateStep = Look(who: nat) | ReadRows(who: nat, spent: nat) | Seed(who: nat) | Count(who: nat)

  /** One rate's cell, what it was started at, and the requests against it. */
  datatype Rate = Rate(cell: Option<nat>, start: Option<nat>, callers: seq<Caller>)

  predicate RateEnabled(r: Rate, s: RateStep) {
    && s.who < |r.callers|
    && match s
       case Look(who) => r.callers[who].Looking?
       case ReadRows(who, _) => r.callers[who].Missing?
       case Seed(who) => r.callers[who].Seeding?
       case Count(who) => r.callers[who].Counting?
  }

  function RateNext(r: Rate, s: RateStep): Rate
    requires RateEnabled(r, s)
  {
    match s
    case Look(who) => r.(callers := r.callers[who := if r.cell.Some? then Counting else Missing])
    case ReadRows(who, spent) => r.(callers := r.callers[who := Seeding(spent)])
    case Seed(who) =>
      var held := Seeded(r.cell, r.callers[who].spent);
      Rate(Some(held), if r.start.None? then Some(held) else r.start, r.callers[who := Counting])
    case Count(who) =>
      var made := Seeded(r.cell, 0) + 1;
      r.(cell := Some(made), callers := r.callers[who := Counted(made)])
  }

  predicate RateLegal(r: Rate, run: seq<RateStep>)
    decreases run
  {
    run == [] || (RateEnabled(r, run[0]) && RateLegal(RateNext(r, run[0]), run[1..]))
  }

  function RateAfter(r: Rate, run: seq<RateStep>): Rate
    requires RateLegal(r, run)
    decreases run
  {
    if run == [] then r else RateAfter(RateNext(r, run[0]), run[1..])
  }

  const IsCounted: Caller -> nat := (c: Caller) => if c.Counted? then 1 else 0

  function Passing(allowance: nat): Caller -> nat {
    (c: Caller) => if c.Counted? && c.made <= allowance then 1 else 0
  }

  /** How many requests a rate let through. */
  function Passed(callers: seq<Caller>, allowance: nat): nat {
    SumOf(callers, Passing(allowance))
  }

  /** What is left of an allowance once `start` of it is spent. */
  function Left(allowance: nat, start: nat): nat {
    if start < allowance then allowance - start else 0
  }

  ghost predicate RateFits(r: Rate, allowance: nat) {
    var counted := SumOf(r.callers, IsCounted);
    && (r.start.None? <==> r.cell.None?)
    && (r.cell.None? ==> counted == 0 && forall i :: 0 <= i < |r.callers| ==> !r.callers[i].Counting?)
    && (r.cell.Some? ==> r.cell.value == r.start.value + counted)
    && Passed(r.callers, allowance) == (if r.start.None? then 0 else Min(counted, Left(allowance, r.start.value)))
  }

  lemma RateStepKeeps(r: Rate, s: RateStep, allowance: nat)
    requires RateFits(r, allowance) && RateEnabled(r, s)
    ensures RateFits(RateNext(r, s), allowance)
    ensures r.start.Some? ==> RateNext(r, s).start == r.start
  {
    var next := RateNext(r, s).callers[s.who];
    SumOfUpdate(r.callers, IsCounted, s.who, next);
    SumOfUpdate(r.callers, Passing(allowance), s.who, next);
  }

  lemma {:induction false} RateKeeps(r: Rate, run: seq<RateStep>, allowance: nat)
    requires RateFits(r, allowance) && RateLegal(r, run)
    ensures RateFits(RateAfter(r, run), allowance)
    ensures r.start.Some? ==> RateAfter(r, run).start == r.start
    ensures |RateAfter(r, run).callers| == |r.callers|
    decreases run
  {
    if run != [] {
      RateStepKeeps(r, run[0], allowance);
      RateKeeps(RateNext(r, run[0]), run[1..], allowance);
    }
  }

  /** `n` requests about to be counted against a rate that nothing has started. */
  function NoneYet(n: nat): Rate {
    Rate(None, None, seq(n, i => Looking))
  }

  /**
   However the calls of `n` requests fall, once all have been counted exactly as many went
   through as the allowance had left beyond what the first seed to land said was spent.
   */
  lemma ARatePassesExactlyWhatIsLeft(n: nat, allowance: nat, run: seq<RateStep>)
    requires RateLegal(NoneYet(n), run) && n > 0
    requires
      var callers := RateAfter(NoneYet(n), run).callers;
      forall i :: 0 <= i < |callers| ==> callers[i].Counted?
    ensures
      var end := RateAfter(NoneYet(n), run);
      && end.start.Some?
      && Passed(end.callers, allowance) == Min(n, Left(allowance, end.start.value))
      && end.cell == Some(end.start.value + n)
  {
    var r := NoneYet(n);
    SumOfEach(r.callers, IsCounted, 0);
    SumOfEach(r.callers, Passing(allowance), 0);
    RateKeeps(r, run, allowance);
    SumOfEach(RateAfter(r, run).callers, IsCounted, 1);
  }

  /** What a rate starts at is what some request read from storage before it. */
  lemma {:induction false} AStartIsWhatARequestRead(r: Rate, run: seq<RateStep>)
    requires RateLegal(r, run) && r.start.None? && r.cell.None?
    requires forall i :: 0 <= i < |r.callers| ==> r.callers[i].Looking?
    ensures RateAfter(r, run).start.Some? ==>
              exists s :: s in run && s.ReadRows? && s.spent == RateAfter(r, run).start.value
    decreases |run|
  {
    SeedsWereRead(r, [], run);
    assert [] + run == run;
  }

  lemma {:induction false} SeedsWereRead(r: Rate, done: seq<RateStep>, run: seq<RateStep>)
    requires RateLegal(r, run)
    requires r.cell.None? ==> r.start.None?
    requires r.start.Some? ==> r.cell.Some? && exists s :: s in done && s.ReadRows? && s.spent == r.start.value
    requires r.cell.Some? ==> r.start.Some?
    requires forall i :: 0 <= i < |r.callers| && r.callers[i].Seeding? ==>
               exists s :: s in done && s.ReadRows? && s.spent == r.callers[i].spent
    requires forall i :: 0 <= i < |r.callers| && r.callers[i].Counting? ==> r.cell.Some?
    ensures RateAfter(r, run).start.Some? ==>
              exists s :: s in done + run && s.ReadRows? && s.spent == RateAfter(r, run).start.value
    decreases |run|
  {
    if run == [] {
      assert done + run == done;
    } else {
      var more := done + [run[0]];
      assert forall s :: s in done ==> s in more;
      assert run[0] in more;
      SeedsWereRead(RateNext(r, run[0]), more, run[1..]);
      assert done + run == more + run[1..];
    }
  }

  lemma RateRunsOn(r: Rate, s: RateStep, run: seq<RateStep>)
    requires RateEnabled(r, s) && RateLegal(RateNext(r, s), run)
    ensures RateLegal(r, [s] + run) && RateAfter(r, [s] + run) == RateAfter(RateNext(r, s), run)
  {
    assert ([s] + run)[1..] == run;
  }

  /** A request is counted by steps of its own: it looks, asks storage and seeds where there is no count, and counts. */
  lemma ARequestIsCounted(r: Rate, i: nat, spent: nat) returns (run: seq<RateStep>)
    requires i < |r.callers| && r.callers[i].Looking?
    ensures run == if r.cell.Some? then [Look(i), Count(i)] else [Look(i), ReadRows(i, spent), Seed(i), Count(i)]
    ensures RateLegal(r, run)
    ensures
      var made := (if r.cell.Some? then r.cell.value else spent) + 1;
      RateAfter(r, run).callers == r.callers[i := Counted(made)] && RateAfter(r, run).cell == Some(made)
  {
    var r1 := RateNext(r, Look(i));
    if r.cell.Some? {
      run := [Look(i), Count(i)];
      RateRunsOn(r1, Count(i), []);
      RateRunsOn(r, Look(i), [Count(i)]);
    } else {
      run := [Look(i), ReadRows(i, spent), Seed(i), Count(i)];
      var r2 := RateNext(r1, ReadRows(i, spent));
      RateRunsOn(RateNext(r2, Seed(i)), Count(i), []);
      RateRunsOn(r2, Seed(i), [Count(i)]);
      RateRunsOn(r1, ReadRows(i, spent), [Seed(i), Count(i)]);
      RateRunsOn(r, Look(i), [ReadRows(i, spent), Seed(i), Count(i)]);
    }
  }

  // ----- a quota: requests admitted while it is unspent, tokens added when they are done -----

  datatype Spender =
    | Arriving
    | Unseeded
    | Starting(spent: nat)
    | Admitted(tokens: nat)      // let through, its tokens not yet counted
    | Refused
    | Settled

  datatype QuotaStep =
    | Read(who: nat, tokens: nat)
    | AskRows(who: nat, spent: nat)
    | Start(who: nat, tokens: nat)
    | Spend(who: nat)

  /** One quota's cell and the requests against it; what each will spend is known only to it. */
  datatype Quota = Quota(cell: Option<nat>, spenders: seq<Spender>)

  predicate QuotaEnabled(q: Quota, s: QuotaStep) {
    && s.who < |q.spenders|
    && match s
       case Read(who, _) => q.spenders[who].Arriving?
       case AskRows(who, _) => q.spenders[who].Unseeded?
       case Start(who, _) => q.spenders[who].Starting?
       case Spend(who) => q.spenders[who].Admitted?
  }

  function Decide(spent: nat, allowance: nat, tokens: nat): Spender {
    if spent >= allowance then Refused else Admitted(tokens)
  }

  function QuotaNext(q: Quota, s: QuotaStep, allowance: nat): Quota
    requires QuotaEnabled(q, s)
  {
    match s
    case Read(who, tokens) =>
      q.(spenders := q.spenders[who := if q.cell.Some? then Decide(q.cell.value, allowance, tokens) else Unseeded])
    case AskRows(who, spent) => q.(spenders := q.spenders[who := Starting(spent)])
    case Start(who, tokens) =>
      var held := Seeded(q.cell, q.spenders[who].spent);
      Quota(Some(held), q.spenders[who := Decide(held, allowance, tokens)])
    case Spend(who) =>
      Quota(Some(Seeded(q.cell, 0) + q.spenders[who].tokens), q.spenders[who := Settled])
  }

  predicate QuotaLegal(q: Quota, run: seq<QuotaStep>, allowance: nat)
    decreases run
  {
    run == [] || (QuotaEnabled(q, run[0]) && QuotaLegal(QuotaNext(q, run[0], allowance), run[1..], allowance))
  }

  function QuotaAfter(q: Quota, run: seq<QuotaStep>, allowance: nat): Quota
    requires QuotaLegal(q, run, allowance)
    decreases run
  {
    if run == [] then q else QuotaAfter(QuotaNext(q, run[0], allowance), run[1..], allowance)
  }

  const Owing: Spender -> nat := (s: Spender) => if s.Admitted? then s.tokens else 0

  /** The tokens of the requests let through and not yet counted. */
  function Outstanding(q: Quota): nat {
    SumOf(q.spenders, Owing)
  }

  predicate Reached(q: Quota, allowance: nat) {
    q.cell.Some? && q.cell.value >= allowance
  }

  /** Once a quota is reached, what is counted and what is owed stay the same together: nobody more is let in. */
  lemma {:induction false} AReachedQuotaIsConserved(q: Quota, run: seq<QuotaStep>, allowance: nat)
    requires QuotaLegal(q, run, allowance) && Reached(q, allowance)
    ensures
      var end := QuotaAfter(q, run, allowance);
      && Reached(end, allowance) && end.cell.value >= q.cell.value
      && end.cell.value + Outstanding(end) == q.cell.value + Outstanding(q)
    decreases run
  {
    if run != [] {
      var q' := QuotaNext(q, run[0], allowance);
      SumOfUpdate(q.spenders, Owing, run[0].who, q'.spenders[run[0].who]);
      AReachedQuotaIsConserved(q', run[1..], allowance);
    }
  }

  /** A request is let through exactly when what it finds counted, its own seed included, is below the allowance. */
  lemma AnUnreachedQuotaAdmits(q: Quota, s: QuotaStep, allowance: nat)
    requires QuotaEnabled(q, s) && ((s.Read? && q.cell.Some?) || s.Start?)
    ensures
      var found := if q.cell.Some? then q.cell.value else q.spenders[s.who].spent;
      var next := QuotaNext(q, s, allowance);
      && next.cell == Some(found)
      && next.spenders[s.who] == (if found < allowance then Admitted(s.tokens) else Refused)
      && forall i :: 0 <= i < |q.spenders| && i != s.who ==> next.spenders[i] == q.spenders[i]
  {
  }

  lemma QuotaRunsOn(q: Quota, s: QuotaStep, run: seq<QuotaStep>, allowance: nat)
    requires QuotaEnabled(q, s) && QuotaLegal(QuotaNext(q, s, allowance), run, allowance)
    ensures QuotaLegal(q, [s] + run, allowance)
    ensures QuotaAfter(q, [s] + run, allowance) == QuotaAfter(QuotaNext(q, s, allowance), run, allowance)
  {
    assert ([s] + run)[1..] == run;
  }

  /** A request settles by its own steps: it reads, asks storage and starts the count if none is there, and spends. */
  lemma ASpenderSettles(q: Quota, i: nat, spent: nat, tokens: nat, allowance: nat) returns (run: seq<QuotaStep>)
    requires i < |q.spenders| && q.spenders[i].Arriving?
    requires (if q.cell.Some? then q.cell.value else spent) < allowance
    ensures run == if q.cell.Some? then [Read(i, tokens), Spend(i)]
                   else [Read(i, tokens), AskRows(i, spent), Start(i, tokens), Spend(i)]
    ensures QuotaLegal(q, run, allowance)
    ensures
      var found := if q.cell.Some? then q.cell.value else spent;
      QuotaAfter(q, run, allowance) == Quota(Some(found + tokens), q.spenders[i := Settled])
  {
    var q1 := QuotaNext(q, Read(i, tokens), allowance);
    if q.cell.Some? {
      run := [Read(i, tokens), Spend(i)];
      QuotaRunsOn(q1, Spend(i), [], allowance);
      QuotaRunsOn(q, Read(i, tokens), [Spend(i)], allowance);
    } else {
      run := [Read(i, tokens), AskRows(i, spent), Start(i, tokens), Spend(i)];
      var q2 := QuotaNext(q1, AskRows(i, spent), allowance);
      QuotaRunsOn(QuotaNext(q2, Start(i, tokens), allowance), Spend(i), [], allowance);
      QuotaRunsOn(q2, Start(i, tokens), [Spend(i)], allowance);
      QuotaRunsOn(q1, AskRows(i, spent), [Start(i, tokens), Spend(i)], allowance);
      QuotaRunsOn(q, Read(i, tokens), [AskRows(i, spent), Start(i, tokens), Spend(i)], allowance);
    }
  }

  /** Nobody is let in before the count is started. */
  ghost predicate QuotaFits(q: Quota) {
    q.cell.None? ==> forall i :: 0 <= i < |q.spenders| ==> !q.spenders[i].Admitted?
  }

  lemma {:induction false} QuotaKeeps(q: Quota, run: seq<QuotaStep>, allowance: nat)
    requires QuotaFits(q) && QuotaLegal(q, run, allowance)
    ensures QuotaFits(QuotaAfter(q, run, allowance))
    decreases run
  {
    if run != [] {
      QuotaKeeps(QuotaNext(q, run[0], allowance), run[1..], allowance);
    }
  }

  function NoSpendersYet(n: nat): Quota {
    Quota(None, seq(n, i => Arriving))
  }

  /**
   How far a quota can be overrun. Take any run up to the step that reaches the allowance, and
   any run from there. If a request's tokens reached it, the count ends at most one below the
   allowance plus the tokens of the requests let through and uncounted just before. If a seed
   did, nobody was let through, and the count stays what the seed said.
   */
  lemma AQuotaIsOverrunByWhatWasOwed(n: nat, allowance: nat, before: seq<QuotaStep>, reaching: QuotaStep,
                                     after: seq<QuotaStep>)
    requires QuotaLegal(NoSpendersYet(n), before, allowance)
    requires
      var q := QuotaAfter(NoSpendersYet(n), before, allowance);
      && !Reached(q, allowance) && QuotaEnabled(q, reaching)
      && Reached(QuotaNext(q, reaching, allowance), allowance)
      && QuotaLegal(QuotaNext(q, reaching, allowance), after, allowance)
    ensures
      var q := QuotaAfter(NoSpendersYet(n), before, allowance);
      var end := QuotaAfter(QuotaNext(q, reaching, allowance), after, allowance);
      && end.cell.Some?
      && (reaching.Spend? ==> end.cell.value <= allowance - 1 + Outstanding(q))
      && (!reaching.Spend? ==> reaching.Start? && end.cell == Some(q.spenders[reaching.who].spent))
  {
    var start := NoSpendersYet(n);
    QuotaKeeps(start, before, allowance);
    var q := QuotaAfter(start, before, allowance);
    var q' := QuotaNext(q, reaching, allowance);
    SumOfUpdate(q.spenders, Owing, reaching.who, q'.spenders[reaching.who]);
    AReachedQuotaIsConserved(q', after, allowance);
    if !reaching.Spend? {
      SumOfEach(q.spenders, Owing, 0);
    }
  }
}
