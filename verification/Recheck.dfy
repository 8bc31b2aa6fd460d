/**
 Asking a logged in user for its passphrase again, and locking it out after too many wrong ones:
 a few cache slots that run out stand in for a log of the wrong ones.
 */
module Recheck {
  import opened Common
  import opened Sums

  const MIN_ATTEMPTS: nat := 2
  const MAX_ATTEMPTS: nat := 5

  // ----- slots and the log they stand for -----

  function Alive(now: nat): nat -> nat {
    (expires: nat) => if expires > now then 1 else 0
  }

  /** How many slots are still held. */
  function Live(slots: seq<nat>, now: nat): nat {
    SumOf(slots, Alive(now))
  }

  function Recent(window: nat, now: nat): nat -> nat {
    (moment: nat) => if moment + window > now then 1 else 0
  }

  /** How many of the wrong ones fall in the window that ends now. */
  function Counting(wrong: seq<nat>, window: nat, now: nat): nat {
    SumOf(wrong, Recent(window, now))
  }

  ghost predicate Rising(wrong: seq<nat>) {
    forall i, j :: 0 <= i < j < |wrong| ==> wrong[i] <= wrong[j]
  }

  /** Any wrong one comes a window or more after the one `attempts` before it. */
  ghost predicate Spaced(wrong: seq<nat>, attempts: nat, window: nat) {
    forall i, j :: 0 <= i && i + attempts <= j < |wrong| ==> wrong[i] + window <= wrong[j]
  }

  ghost predicate StandsFor(slots: seq<nat>, wrong: seq<nat>, window: nat, since: nat) {
    forall now :: now >= since ==> Live(slots, now) == Counting(wrong, window, now)
  }

  lemma AClaimIsLogged(slots: seq<nat>, wrong: seq<nat>, window: nat, since: nat, k: nat, moment: nat)
    requires k < |slots| && slots[k] <= moment && since <= moment
    requires StandsFor(slots, wrong, window, since)
    ensures StandsFor(slots[k := moment + window], wrong + [moment], window, moment)
  {
    forall now | now >= moment
      ensures Live(slots[k := moment + window], now) == Counting(wrong + [moment], window, now)
    {
      assert Live(slots, now) == Counting(wrong, window, now);
      SumOfUpdate<nat>(slots, Alive(now), k, moment + window);
      SumOfOneMore(wrong, Recent(window, now), moment);
    }
  }

  lemma AFreeSlotIsSpaced(slots: seq<nat>, wrong: seq<nat>, window: nat, since: nat, k: nat, moment: nat)
    requires k < |slots| && slots[k] <= moment && since <= moment
    requires StandsFor(slots, wrong, window, since) && Rising(wrong) && Spaced(wrong, |slots|, window)
    requires forall i :: 0 <= i < |wrong| ==> wrong[i] <= since
    ensures Rising(wrong + [moment]) && Spaced(wrong + [moment], |slots|, window)
  {
    if |wrong| >= |slots| {
      var oldest := |wrong| - |slots|;
      SumOfFewer<nat>(slots, Alive(moment), k);
      assert Live(slots, moment) == Counting(wrong, window, moment);
      if wrong[oldest] + window > moment {
        SumOfTail(wrong, Recent(window, moment), oldest);
      }
    }
  }

  lemma NothingCounts(wrong: seq<nat>, window: nat, now: nat)
    requires Rising(wrong) && (wrong != [] ==> wrong[|wrong| - 1] + window <= now)
    ensures Counting(wrong, window, now) == 0
  {
    SumOfEach(wrong, Recent(window, now), 0);
  }

  function Within(window: nat, from: nat): nat -> nat {
    (moment: nat) => if from <= moment < from + window then 1 else 0
  }

  /** No stretch as long as the window checks more wrong passphrases than the limit. */
  lemma NoWindowChecksMore(wrong: seq<nat>, attempts: nat, window: nat, from: nat)
    requires Rising(wrong) && Spaced(wrong, attempts, window)
    ensures SumOf(wrong, Within(window, from)) <= attempts
  {
    if i :| 0 <= i < |wrong| && from <= wrong[i] && forall j :: 0 <= j < i ==> wrong[j] < from {
      SumOfStretch(wrong, Within(window, from), i, i + attempts);
    } else {
      NoneReaches(wrong, from, |wrong|);
      SumOfEach(wrong, Within(window, from), 0);
    }
  }

  lemma {:induction false} NoneReaches(wrong: seq<nat>, from: nat, n: nat)
    requires n <= |wrong|
    requires forall i :: 0 <= i < |wrong| && from <= wrong[i] ==> exists j :: 0 <= j < i && wrong[j] >= from
    ensures forall i :: 0 <= i < n ==> wrong[i] < from
  {
    if n > 0 {
      NoneReaches(wrong, from, n - 1);
    }
  }

  // ----- one user's rechecks, one after another -----

  datatype Answer = Right | Refused | Locked

  /** One user's slots in the cache, each the moment it runs out at; one that holds nothing ran out at zero. */
  class Guard {
    const attempts: nat
    const window: nat
    var slots: seq<nat>
    ghost var wrong: seq<nat>    // when each wrong one was counted since the last right one
    ghost var clock: nat         // when the slots were last asked about

    ghost predicate Valid()
      reads this
    {
      && MIN_ATTEMPTS <= attempts <= MAX_ATTEMPTS && |slots| == attempts
      && (forall i :: 0 <= i < |wrong| ==> wrong[i] <= clock)
      && StandsFor(slots, wrong, window, clock)
      && Rising(wrong) && Spaced(wrong, attempts, window)
    }

    constructor (attempts: nat, window: nat)
      ensures Valid() && wrong == [] && this.window == window
      ensures MIN_ATTEMPTS <= attempts <= MAX_ATTEMPTS ==> this.attempts == attempts
      ensures attempts < MIN_ATTEMPTS ==> this.attempts == MIN_ATTEMPTS
      ensures attempts > MAX_ATTEMPTS ==> this.attempts == MAX_ATTEMPTS
    {
      this.attempts := Max(Min(attempts, MAX_ATTEMPTS), MIN_ATTEMPTS);
      this.window := window;
      slots := seq(Max(Min(attempts, MAX_ATTEMPTS), MIN_ATTEMPTS), i => 0);
      wrong, clock := [], 0;
      new;
      Cleared(slots, window, this.attempts, 0);
    }

    /** How many wrong passphrases still count, each slot read at a moment of its own. */
    method FailedRechecks(at: nat -> nat) returns (failed: nat)
      requires Valid() && Advancing(at)
      ensures Live(slots, at(attempts - 1)) <= failed <= Live(slots, at(0))
      ensures failed <= attempts
      ensures failed < attempts ==> exists k :: 0 <= k < attempts && slots[k] <= at(k)
    {
      failed := 0;
      for k := 0 to attempts
        invariant Live(slots[..k], at(attempts - 1)) <= failed <= Live(slots[..k], at(0))
        invariant failed <= k
        invariant failed < k ==> exists j :: 0 <= j < k && slots[j] <= at(j)
      {
        assert slots[..k + 1] == slots[..k] + [slots[k]];
        SumOfOneMore(slots[..k], Alive(at(0)), slots[k]);
        SumOfOneMore(slots[..k], Alive(at(attempts - 1)), slots[k]);
        assert at(0) <= at(k) <= at(attempts - 1);
        if slots[k] > at(k) {
          failed := failed + 1;
        }
      }
      assert slots[..attempts] == slots;
    }

    /** The first free slot, each asked for at a moment of its own. */
    method Claim(at: nat -> nat, ghost free: nat) returns (k: nat)
      requires Valid() && Advancing(at) && at(0) >= clock
      requires free < attempts && slots[free] <= at(0)
      modifies this
      ensures Valid() && slots != []
      ensures wrong == old(wrong) + [at(k)] && k < attempts
      ensures clock == at(k)
    {
      k := 0;
      while k < attempts && slots[k] > at(k)
        invariant 0 <= k <= free
        decreases free - k
      {
        assert at(0) <= at(k);
        k := k + 1;
        assert at(0) <= at(k);
      }
      assert at(0) <= at(k);
      AClaimIsLogged(slots, wrong, window, clock, k, at(k));
      AFreeSlotIsSpaced(slots, wrong, window, clock, k, at(k));
      slots := slots[k := at(k) + window];
      wrong := wrong + [at(k)];
      clock := at(k);
    }

    /** Frees every slot. */
    method Clear()
      requires Valid()
      modifies this`slots, this`wrong
      ensures Valid() && wrong == []
    {
      for k := 0 to attempts
        invariant |slots| == attempts && forall i :: 0 <= i < k ==> slots[i] == 0
      {
        slots := slots[k := 0];
      }
      wrong := [];
      Cleared(slots, window, attempts, clock);
    }

    /** Counts a wrong passphrase, and says whether it was one too many. */
    method CountWrong(at: nat -> nat, ghost free: nat) returns (answer: Answer, ghost moment: nat)
      requires Valid() && Advancing(at) && at(0) >= clock
      requires free < attempts && slots[free] <= at(0)
      modifies this
      ensures Valid() && at(0) <= moment <= at(attempts) && wrong == old(wrong) + [moment]
      ensures answer == Locked ==> Counting(wrong, window, at(attempts)) >= attempts
      ensures answer != Locked ==> answer == Refused && Counting(wrong, window, at(2 * attempts - 1)) < attempts
    {
      hide Live, Counting, StandsFor, Rising, Spaced;
      var k := Claim(at, free);
      assert at(0) <= at(k) <= at(attempts) <= at(2 * attempts - 1);
      moment := at(k);
      var failed := FailedRechecks(Later(at, attempts));
      AtAMoment(slots, wrong, window, clock, at(attempts));
      AtAMoment(slots, wrong, window, clock, at(2 * attempts - 1));
      answer := if failed >= attempts then Locked else Refused;
    }

    /**
     Checks a passphrase unless too many wrong ones still count. A right one clears the count; a wrong
     one is counted; one refused unchecked changes nothing, so that guessing on does not put off the lock's end.
     */
    method Recheck(right: bool, at: nat -> nat) returns (answer: Answer, ghost checked: bool, ghost moment: nat)
      requires Valid() && Advancing(at) && at(0) >= clock
      modifies this
      ensures Valid()
      ensures old(wrong) == [] || old(wrong)[|old(wrong)| - 1] + window <= at(0) ==> checked
      ensures !checked ==> answer == Locked && slots == old(slots) && wrong == old(wrong)
      ensures !checked ==> Counting(old(wrong), window, at(0)) >= attempts
      ensures checked ==> Counting(old(wrong), window, at(attempts - 1)) < attempts
      ensures checked && right ==> answer == Right && wrong == []
      ensures checked && !right ==> answer != Right && wrong == old(wrong) + [moment]
      ensures checked && !right ==> at(0) <= moment <= at(2 * attempts)
      ensures checked && !right && answer == Locked ==> Counting(wrong, window, at(2 * attempts)) >= attempts
      ensures checked && !right && answer != Locked ==> Counting(wrong, window, at(3 * attempts - 1)) < attempts
    {
      hide Live, Counting, StandsFor, Spaced, Rising, Advancing;
      InOrder(at, 0, attempts - 1);
      InOrder(at, 0, attempts);
      if wrong == [] || wrong[|wrong| - 1] + window <= at(0) {
        NothingCounts(wrong, window, at(0));
      }
      moment := 0;
      var failed := FailedRechecks(at);
      AtAMoment(slots, wrong, window, clock, at(0));
      AtAMoment(slots, wrong, window, clock, at(attempts - 1));
      checked := failed < attempts;
      if failed >= attempts {
        return Locked, checked, moment;
      }
      if right {
        Clear();
        return Right, checked, moment;
      }
      ghost var free :| 0 <= free < attempts && slots[free] <= at(free);
      InOrder(at, free, attempts);
      LaterAdvances(at, attempts);
      answer, moment := CountWrong(Later(at, attempts), free);
    }
  }

  lemma AtAMoment(slots: seq<nat>, wrong: seq<nat>, window: nat, since: nat, now: nat)
    requires StandsFor(slots, wrong, window, since) && since <= now
    ensures Live(slots, now) == Counting(wrong, window, now)
  {
  }

  ghost predicate Advancing(at: nat -> nat) {
    forall i, j :: 0 <= i <= j ==> at(i) <= at(j)
  }

  lemma InOrder(at: nat -> nat, i: nat, j: nat)
    requires Advancing(at) && i <= j
    ensures at(i) <= at(j)
  {
  }

  lemma LaterAdvances(at: nat -> nat, calls: nat)
    requires Advancing(at)
    ensures Advancing(Later(at, calls))
  {
  }

  function Later(at: nat -> nat, calls: nat): nat -> nat {
    (i: nat) => at(calls + i)
  }

  lemma Cleared(slots: seq<nat>, window: nat, attempts: nat, since: nat)
    requires forall i :: 0 <= i < |slots| ==> slots[i] == 0
    ensures StandsFor(slots, [], window, since) && Spaced([], attempts, window)
  {
    forall now | now >= since ensures Live(slots, now) == Counting([], window, now) {
      SumOfEach(slots, Alive(now), 0);
    }
  }

  // ----- rechecks that race, all wrong and none aging out meanwhile -----

  /**
   Where one has got to: reading slot after slot for how many are held, then, checked and wrong,
   asking for slot after slot, or refused unchecked.
   */
  datatype Racer = Idle | Reading(slot: nat, failed: nat) | TurnedAway | Asking(slot: nat) | Took(slot: nat) | Missed

  datatype Race = Race(slots: seq<bool>, racers: seq<Racer>)

  function IsHeld(slot: bool): nat { if slot then 1 else 0 }
  function IsTook(racer: Racer): nat { if racer.Took? then 1 else 0 }
  function IsChecked(racer: Racer): nat { if racer.Asking? || racer.Took? || racer.Missed? then 1 else 0 }
  function Held(slots: seq<bool>): nat { SumOf(slots, IsHeld) }
  function Taken(racers: seq<Racer>): nat { SumOf(racers, IsTook) }

  /** How many passphrases were checked. */
  function Checked(racers: seq<Racer>): nat { SumOf(racers, IsChecked) }

  /** One racer's next read or claim, a claim taking a slot that is free. */
  function Raced(r: Race, i: nat): Race
    requires i < |r.racers|
  {
    match r.racers[i]
    case Idle => r.(racers := r.racers[i := Reading(0, 0)])
    case Reading(k, failed) =>
      if k < |r.slots| then r.(racers := r.racers[i := Reading(k + 1, failed + IsHeld(r.slots[k]))])
      else r.(racers := r.racers[i := if failed >= |r.slots| then TurnedAway else Asking(0)])
    case Asking(k) =>
      if k >= |r.slots| then r.(racers := r.racers[i := Missed])
      else if r.slots[k] then r.(racers := r.racers[i := Asking(k + 1)])
      else Race(r.slots[k := true], r.racers[i := Took(k)])
    case _ => r
  }

  /** A run of one racer alone. */
  ghost predicate Only(run: seq<nat>, i: nat) {
    forall j :: 0 <= j < |run| ==> run[j] == i
  }

  lemma RacesOn(r: Race, i: nat, run: seq<nat>)
    requires i < |r.racers| && Only(run, i)
    ensures Only([i] + run, i) && RacedThrough(r, [i] + run) == RacedThrough(Raced(r, i), run)
  {
    assert ([i] + run)[1..] == run;
  }

  /** Left alone, one that asks takes the first slot free from there on, and misses exactly when there is none. */
  lemma {:induction false} AnAskerLeftAlone(r: Race, i: nat) returns (run: seq<nat>, first: nat)
    requires i < |r.racers| && r.racers[i].Asking? && r.racers[i].slot <= |r.slots|
    ensures Only(run, i) && r.racers[i].slot <= first <= |r.slots|
    ensures forall k :: r.racers[i].slot <= k < first ==> r.slots[k]
    ensures first < |r.slots| ==> !r.slots[first]
    ensures RacedThrough(r, run) ==
            if first < |r.slots| then Race(r.slots[first := true], r.racers[i := Took(first)])
            else r.(racers := r.racers[i := Missed])
    decreases |r.slots| - r.racers[i].slot
  {
    first := r.racers[i].slot;
    var next := Raced(r, i);
    run := [];
    if first < |r.slots| && r.slots[first] {
      run, first := AnAskerLeftAlone(next, i);
    }
    RacesOn(r, i, run);
    run := [i] + run;
  }

  /** Left alone, one that reads is turned away exactly when it has found as many slots held as there are. */
  lemma {:induction false} AReaderLeftAlone(r: Race, i: nat) returns (run: seq<nat>)
    requires i < |r.racers| && r.racers[i].Reading? && r.racers[i].slot <= |r.slots|
    ensures Only(run, i)
    ensures
      var Reading(k, failed) := r.racers[i];
      RacedThrough(r, run) ==
        r.(racers := r.racers[i := if failed + Held(r.slots[k..]) >= |r.slots| then TurnedAway else Asking(0)])
    decreases |r.slots| - r.racers[i].slot
  {
    var Reading(k, failed) := r.racers[i];
    var next := Raced(r, i);
    run := [];
    if k < |r.slots| {
      assert r.slots[k..] == [r.slots[k]] + r.slots[k + 1..];
      run := AReaderLeftAlone(next, i);
    }
    RacesOn(r, i, run);
    run := [i] + run;
  }

  lemma {:induction false} RacesThrough(r: Race, i: nat, a: seq<nat>, b: seq<nat>)
    requires i < |r.racers| && Only(a, i) && Only(b, i)
    ensures Only(a + b, i) && RacedThrough(r, a + b) == RacedThrough(RacedThrough(r, a), b)
    decreases |a|
  {
    if a == [] {
      assert a + b == b;
    } else {
      assert (a + b)[0] == a[0] == i && (a + b)[1..] == a[1..] + b;
      RacesThrough(Raced(r, i), i, a[1..], b);
    }
  }

  /**
   Left alone, a recheck with a wrong passphrase is turned away when every slot is held, and is otherwise
   checked and takes the first that is free.
   */
  lemma ARecheckLeftAlone(r: Race, i: nat) returns (run: seq<nat>, first: nat)
    requires i < |r.racers| && r.racers[i].Idle?
    ensures Only(run, i) && first <= |r.slots| && forall k :: 0 <= k < first ==> r.slots[k]
    ensures first < |r.slots| ==> !r.slots[first]
    ensures RacedThrough(r, run) ==
            if first < |r.slots| then Race(r.slots[first := true], r.racers[i := Took(first)])
            else r.(racers := r.racers[i := TurnedAway])
  {
    hide RacedThrough, SumOf;
    var reading := Raced(r, i);
    run := AReaderLeftAlone(reading, i);
    RacesOn(r, i, run);
    run := [i] + run;
    assert r.slots[0..] == r.slots;
    AllHeldExactly(r.slots);
    var decided := RacedThrough(r, run);
    if Held(r.slots) >= |r.slots| {
      first := |r.slots|;
    } else {
      var asking;
      asking, first := AnAskerLeftAlone(decided, i);
      RacesThrough(r, i, run, asking);
      run := run + asking;
    }
  }

  lemma {:induction false} AllHeldExactly(slots: seq<bool>)
    ensures Held(slots) <= |slots|
    ensures Held(slots) == |slots| <==> forall k :: 0 <= k < |slots| ==> slots[k]
  {
    if slots != [] {
      AllHeldExactly(slots[1..]);
    }
  }

  ghost predicate HeldBelow(slots: seq<bool>, n: nat) {
    forall k :: 0 <= k < n && k < |slots| ==> slots[k]
  }

  ghost predicate Full(slots: seq<bool>) {
    HeldBelow(slots, |slots|)
  }

  ghost predicate Counted(r: Race, began: nat) {
    && Held(r.slots) == began + Taken(r.racers)
    && (forall i :: 0 <= i < |r.racers| && r.racers[i].Asking? ==> HeldBelow(r.slots, r.racers[i].slot))
    && (forall i :: 0 <= i < |r.racers| && r.racers[i].Missed? ==> Full(r.slots))
  }

  lemma ARaceStepKeeps(r: Race, i: nat, began: nat)
    requires i < |r.racers| && Counted(r, began)
    ensures Counted(Raced(r, i), began)
  {
    hide SumOf;
    SumOfUpdate(r.racers, IsTook, i, Raced(r, i).racers[i]);
    if r.racers[i].Asking? {
      var k := r.racers[i].slot;
      if k < |r.slots| {
        SumOfUpdate(r.slots, IsHeld, k, true);
      }
    }
  }

  function RacedThrough(r: Race, run: seq<nat>): (end: Race)
    requires forall i :: 0 <= i < |run| ==> run[i] < |r.racers|
    ensures |end.racers| == |r.racers| && |end.slots| == |r.slots|
    decreases |run|
  {
    if run == [] then r else RacedThrough(Raced(r, run[0]), run[1..])
  }

  lemma {:induction false} ARaceKeeps(r: Race, run: seq<nat>, began: nat)
    requires (forall i :: 0 <= i < |run| ==> run[i] < |r.racers|) && Counted(r, began)
    ensures Counted(RacedThrough(r, run), began)
    decreases |run|
  {
    if run != [] {
      hide Counted;
      ARaceStepKeeps(r, run[0], began);
      ARaceKeeps(Raced(r, run[0]), run[1..], began);
    }
  }

  /** Rechecks about to start. */
  function Lined(slots: seq<bool>, n: nat): Race {
    Race(slots, seq(n, i => Idle))
  }

  /** However rechecks that race interleave, once all have ended every wrong one checked counts, up to the limit. */
  lemma RacingFailuresAllCount(slots: seq<bool>, n: nat, run: seq<nat>)
    requires forall i :: 0 <= i < |run| ==> run[i] < n
    requires var end := RacedThrough(Lined(slots, n), run);
      forall i :: 0 <= i < |end.racers| ==> !end.racers[i].Asking?
    ensures
      var end := RacedThrough(Lined(slots, n), run);
      Held(end.slots) == Min(|slots|, Held(slots) + Checked(end.racers))
  {
    var r := Lined(slots, n);
    NobodyHasTaken(slots, n);
    ARaceKeeps(r, run, Held(slots));
    var end := RacedThrough(r, run);
    SumOfDominates(end.racers, IsTook, end.racers, IsChecked);
    SumOfStretch(end.slots, IsHeld, 0, |slots|);
    if i :| 0 <= i < n && end.racers[i].Missed? {
      SumOfEach(end.slots, IsHeld, 1);
    } else {
      SumOfAgrees(end.racers, IsTook, IsChecked);
    }
  }

  /** A racer that every slot it has read looked held to, and none that is checked. */
  predicate Barred(racer: Racer) {
    racer.Idle? || racer.TurnedAway? || (racer.Reading? && racer.failed == racer.slot)
  }

  function IsInFlight(racer: Racer): nat {
    if racer.Asking? || (racer.Reading? && racer.failed != racer.slot) then 1 else 0
  }

  function IsOpen(racer: Racer): nat { if Barred(racer) then 0 else 1 }

  /** How many are on their way to being counted, or have seen a slot free and will be checked. */
  function InFlight(racers: seq<Racer>): nat { SumOf(racers, IsInFlight) }

  lemma {:induction false} AFullRaceBars(r: Race, run: seq<nat>)
    requires (forall i :: 0 <= i < |run| ==> run[i] < |r.racers|) && Full(r.slots)
    ensures
      var end := RacedThrough(r, run);
      && Full(end.slots)
      && forall i :: 0 <= i < |r.racers| && Barred(r.racers[i]) ==> Barred(end.racers[i])
    decreases |run|
  {
    if run != [] {
      var next := Raced(r, run[0]);
      assert forall i :: 0 <= i < |r.racers| && Barred(r.racers[i]) ==> Barred(next.racers[i]);
      hide Raced, Barred;
      AFullRaceBars(next, run[1..]);
    }
  }

  /** While the limit's worth count, no recheck that starts is checked, however many race. */
  lemma ALockHolds(slots: seq<bool>, n: nat, run: seq<nat>)
    requires (forall i :: 0 <= i < |run| ==> run[i] < n) && Full(slots)
    ensures Checked(RacedThrough(Lined(slots, n), run).racers) == 0
  {
    AFullRaceBars(Lined(slots, n), run);
    SumOfEach(RacedThrough(Lined(slots, n), run).racers, IsChecked, 0);
  }

  /** A racer's reads so far: no more slots held than were read, and no more read than there are. */
  ghost predicate ReadsFit(r: Race) {
    forall i :: 0 <= i < |r.racers| && r.racers[i].Reading? ==> r.racers[i].failed <= r.racers[i].slot <= |r.slots|
  }

  ghost predicate AllEnded(r: Race) {
    forall i :: 0 <= i < |r.racers| ==> !r.racers[i].Reading? && !r.racers[i].Asking?
  }

  /** Once a racer has seen a slot free it will be checked, whatever happens to the slots. */
  lemma {:induction false} AnOpenRacerStaysOpen(r: Race, run: seq<nat>)
    requires (forall i :: 0 <= i < |run| ==> run[i] < |r.racers|) && ReadsFit(r)
    ensures
      var end := RacedThrough(r, run);
      ReadsFit(end) && forall i :: 0 <= i < |r.racers| && !Barred(r.racers[i]) ==> !Barred(end.racers[i])
    decreases |run|
  {
    if run != [] {
      var next := Raced(r, run[0]);
      assert ReadsFit(next) && forall i :: 0 <= i < |r.racers| && !Barred(r.racers[i]) ==> !Barred(next.racers[i]);
      hide Raced, Barred, ReadsFit;
      AnOpenRacerStaysOpen(next, run[1..]);
    }
  }

  lemma NobodyHasTaken(slots: seq<bool>, n: nat)
    ensures Counted(Lined(slots, n), Held(slots)) && ReadsFit(Lined(slots, n))
  {
    SumOfEach(Lined(slots, n).racers, IsTook, 0);
  }

  lemma OpenOnes(r: Race)
    requires !Full(r.slots) && forall i :: 0 <= i < |r.racers| && r.racers[i].Missed? ==> Full(r.slots)
    ensures SumOf(r.racers, IsOpen) == Taken(r.racers) + InFlight(r.racers)
  {
    SumOfBoth(r.racers, IsTook, IsInFlight, IsOpen);
  }

  /** The last slot is taken by a claim, which leaves everyone else as they were and one slot short before it. */
  lemma OnlyAClaimFills(r: Race, last: nat)
    requires last < |r.racers| && !Full(r.slots) && Full(Raced(r, last).slots)
    ensures |Raced(r, last).racers| == |r.racers| && |Raced(r, last).slots| == |r.slots|
    ensures forall i :: 0 <= i < |r.racers| ==> (Barred(r.racers[i]) <==> Barred(Raced(r, last).racers[i]))
    ensures Held(r.slots) == |r.slots| - 1 && InFlight(r.racers) >= 1
  {
    var k := r.racers[last].slot;
    SumOfUpdate(r.slots, IsHeld, k, true);
    SumOfEach(Raced(r, last).slots, IsHeld, 1);
    SumOfBounds(r.racers, IsInFlight, last);
  }

  /**
   How far racing rechecks overrun the limit. Take any run up to the claim that takes the last
   slot, and any run from there: with those that counted before, at most one less than the limit
   and those in flight just then are checked, and once all have ended, exactly that many.
   */
  lemma RacingRechecksOverrunByWhatWasInFlight(slots: seq<bool>, n: nat, before: seq<nat>, last: nat, after: seq<nat>)
    requires last < n && forall i :: 0 <= i < |before| ==> before[i] < n
    requires forall i :: 0 <= i < |after| ==> after[i] < n
    requires
      var r := RacedThrough(Lined(slots, n), before);
      !Full(r.slots) && Full(Raced(r, last).slots)
    ensures
      var r := RacedThrough(Lined(slots, n), before);
      var end := RacedThrough(Raced(r, last), after);
      && InFlight(r.racers) >= 1
      && Held(slots) + Checked(end.racers) <= |slots| - 1 + InFlight(r.racers)
      && (AllEnded(end) ==> Held(slots) + Checked(end.racers) == |slots| - 1 + InFlight(r.racers))
  {
    hide Full, HeldBelow, Raced, RacedThrough, ReadsFit;
    var start := Lined(slots, n);
    var r := RacedThrough(start, before);
    NobodyHasTaken(slots, n);
    ARaceKeeps(start, before, Held(slots));
    AnOpenRacerStaysOpen(start, before);
    OpenOnes(r);
    OnlyAClaimFills(r, last);
    AClaimKeepsReads(r, last);
    AFullRaceBars(Raced(r, last), after);
    AnOpenRacerStaysOpen(Raced(r, last), after);
    var end := RacedThrough(Raced(r, last), after);
    SumOfDominates(end.racers, IsChecked, r.racers, IsOpen);
    if AllEnded(end) {
      SumOfDominates(r.racers, IsOpen, end.racers, IsChecked);
    }
  }

  lemma AClaimKeepsReads(r: Race, last: nat)
    requires last < |r.racers| && ReadsFit(r)
    ensures ReadsFit(Raced(r, last))
  {
  }

  lemma {:induction false} RacedInParts(r: Race, a: seq<nat>, b: seq<nat>)
    requires forall i :: 0 <= i < |a| ==> a[i] < |r.racers|
    requires forall i :: 0 <= i < |b| ==> b[i] < |r.racers|
    ensures RacedThrough(r, a + b) == RacedThrough(RacedThrough(r, a), b)
    decreases |a|
  {
    if a == [] {
      assert a + b == b;
    } else {
      assert (a + b)[1..] == a[1..] + b;
      RacedInParts(Raced(r, a[0]), a[1..], b);
    }
  }

  /** The race as it stands after the first `i` steps of a run. */
  function RaceAt(slots: seq<bool>, n: nat, run: seq<nat>, i: nat): (r: Race)
    requires i <= |run| && forall k :: 0 <= k < |run| ==> run[k] < n
    ensures |r.racers| == n && |r.slots| == |slots|
  {
    RacedThrough(Lined(slots, n), run[..i])
  }

  /** Whether step `i` of a run takes the last slot. */
  ghost predicate FillsAt(slots: seq<bool>, n: nat, run: seq<nat>, i: nat)
    requires forall k :: 0 <= k < |run| ==> run[k] < n
  {
    i < |run| && !Full(RaceAt(slots, n, run, i).slots) && Full(RaceAt(slots, n, run, i + 1).slots)
  }

  lemma OneStepOn(slots: seq<bool>, n: nat, run: seq<nat>, i: nat)
    requires i < |run| && forall k :: 0 <= k < |run| ==> run[k] < n
    ensures RaceAt(slots, n, run, i + 1) == Raced(RaceAt(slots, n, run, i), run[i])
    ensures RaceAt(slots, n, run, |run|) == RacedThrough(Raced(RaceAt(slots, n, run, i), run[i]), run[i + 1..])
  {
    hide Raced;
    assert run[..i + 1] == run[..i] + [run[i]];
    RacedInParts(Lined(slots, n), run[..i], [run[i]]);
    assert [run[i]][1..] == [];
    assert run[..|run|] == run[..i + 1] + run[i + 1..];
    RacedInParts(Lined(slots, n), run[..i + 1], run[i + 1..]);
  }

  /** A run that ends with every slot held, and did not begin so, takes the last one somewhere. */
  lemma {:induction false} SomeStepFills(slots: seq<bool>, n: nat, run: seq<nat>, m: nat) returns (i: nat)
    requires m <= |run| && forall k :: 0 <= k < |run| ==> run[k] < n
    requires !Full(slots) && Full(RaceAt(slots, n, run, m).slots)
    ensures FillsAt(slots, n, run, i)
  {
    assert RaceAt(slots, n, run, 0) == Lined(slots, n);
    i := m - 1;
    if Full(RaceAt(slots, n, run, i).slots) {
      i := SomeStepFills(slots, n, run, i);
    }
  }

  /**
   When racing rechecks keep to the limit. Over any run that ends with every recheck ended, no more
   are checked than the limit has left if and only if nobody else is in flight as a claim takes the
   last slot; a run that never takes it, or begins with it taken, keeps to the limit.
   */
  lemma TheLimitIsKeptExactly(slots: seq<bool>, n: nat, run: seq<nat>)
    requires (forall k :: 0 <= k < |run| ==> run[k] < n) && AllEnded(RaceAt(slots, n, run, |run|))
    ensures Held(slots) + Checked(RaceAt(slots, n, run, |run|).racers) <= |slots| <==>
            forall i :: FillsAt(slots, n, run, i) ==> InFlight(RaceAt(slots, n, run, i).racers) <= 1
  {
    hide Raced, RacedThrough, Full, AllEnded;
    var end := RaceAt(slots, n, run, |run|);
    assert run[..|run|] == run;
    forall i: nat | FillsAt(slots, n, run, i)
      ensures Held(slots) + Checked(end.racers) == |slots| - 1 + InFlight(RaceAt(slots, n, run, i).racers)
    {
      OneStepOn(slots, n, run, i);
      RacingRechecksOverrunByWhatWasInFlight(slots, n, run[..i], run[i], run[i + 1..]);
    }
    if !exists i :: FillsAt(slots, n, run, i) {
      AnUnfilledRaceKeepsToTheLimit(slots, n, run);
    }
  }

  lemma AnUnfilledRaceKeepsToTheLimit(slots: seq<bool>, n: nat, run: seq<nat>)
    requires (forall k :: 0 <= k < |run| ==> run[k] < n) && AllEnded(RaceAt(slots, n, run, |run|))
    requires !exists i :: FillsAt(slots, n, run, i)
    ensures Held(slots) + Checked(RaceAt(slots, n, run, |run|).racers) <= |slots|
  {
    var end := RaceAt(slots, n, run, |run|);
    assert run[..|run|] == run;
    SumOfStretch(slots, IsHeld, 0, |slots|);
    if Full(slots) {
      ALockHolds(slots, n, run);
    } else if Full(end.slots) {
      var i := SomeStepFills(slots, n, run, |run|);
    } else {
      RacingFailuresAllCount(slots, n, run);
      var k :| 0 <= k < |end.slots| && !end.slots[k];
      SumOfFewer(end.slots, IsHeld, k);
    }
  }

  // ----- an overrun of any size -----

  /** One racer reading the first `k` slots, from the start. */
  lemma {:induction false} ReadsOn(r: Race, i: nat, k: nat)
    requires i < |r.racers| && r.racers[i].Idle? && k <= |r.slots|
    ensures RacedThrough(r, seq(k + 1, _ => i)) == r.(racers := r.racers[i := Reading(k, Held(r.slots[..k]))])
  {
    if k == 0 {
      assert seq(1, _ => i)[1..] == [];
    } else {
      ReadsOn(r, i, k - 1);
      assert seq(k + 1, _ => i) == seq(k, _ => i) + [i];
      RacedInParts(r, seq(k, _ => i), [i]);
      assert [i][1..] == [];
      assert r.slots[..k] == r.slots[..k - 1] + [r.slots[k - 1]];
      SumOfOneMore(r.slots[..k - 1], IsHeld, r.slots[k - 1]);
    }
  }

  /** One racer reading every slot while one is free, and so passing to the check. */
  lemma ReadsThrough(r: Race, i: nat) returns (run: seq<nat>)
    requires i < |r.racers| && r.racers[i].Idle? && !Full(r.slots)
    ensures forall k :: 0 <= k < |run| ==> run[k] == i
    ensures RacedThrough(r, run) == r.(racers := r.racers[i := Asking(0)])
  {
    var m := |r.slots|;
    ReadsOn(r, i, m);
    run := seq(m + 1, _ => i) + [i];
    RacedInParts(r, seq(m + 1, _ => i), [i]);
    assert [i][1..] == [];
    assert r.slots[..m] == r.slots;
    var k :| 0 <= k < |r.slots| && !r.slots[k];
    SumOfFewer(r.slots, IsHeld, k);
  }

  lemma {:induction false} ManyReadThrough(slots: seq<bool>, n: nat, m: nat) returns (run: seq<nat>)
    requires m <= n && !Full(slots)
    ensures forall k :: 0 <= k < |run| ==> run[k] < n
    ensures RacedThrough(Lined(slots, n), run) == Race(slots, seq(n, i => if i < m then Asking(0) else Idle))
  {
    run := [];
    if m > 0 {
      var before := ManyReadThrough(slots, n, m - 1);
      var r := RacedThrough(Lined(slots, n), before);
      var one := ReadsThrough(r, m - 1);
      RacedInParts(Lined(slots, n), before, one);
      run := before + one;
    }
  }

  /** The overrun is real, and has no bound: while one slot is free, any number that race can all be checked. */
  lemma AnOverrunIsReachable(slots: seq<bool>, n: nat) returns (run: seq<nat>)
    requires !Full(slots)
    ensures forall k :: 0 <= k < |run| ==> run[k] < n
    ensures Checked(RacedThrough(Lined(slots, n), run).racers) == n
  {
    run := ManyReadThrough(slots, n, n);
    SumOfEach(RacedThrough(Lined(slots, n), run).racers, IsChecked, 1);
  }
}
