/**
 Dispatching over one rule's endpoints, in turn, by share or by load, and the loads they are weighed by.
 */
module Dispatch {
  import opened Common
  import opened RoutingTable

  const U32_SPAN: nat := 0x1_0000_0000
  const U64_SPAN: nat := 0x1_0000_0000_0000_0000
  const UNKNOWN_LATENCY: nat := 1_000
  const SMOOTHING: nat := 5

  // ----- live endpoints -----

  /** Which of the first `n` endpoints are not drained. */
  function Undrained(weights: seq<nat>, n: nat): seq<nat>
    requires n <= |weights|
  {
    if n == 0 then []
    else if weights[n - 1] == 0 then Undrained(weights, n - 1)
    else Undrained(weights, n - 1) + [n - 1]
  }

  /** The endpoints not drained, or every one when all are. */
  function LiveOf(weights: seq<nat>): (live: seq<nat>)
    ensures weights != [] ==> live != []
    ensures forall j :: 0 <= j < |live| ==> live[j] < |weights|
  {
    UndrainedHolds(weights, |weights|);
    var undrained := Undrained(weights, |weights|);
    if undrained == [] then seq(|weights|, i => i) else undrained
  }

  lemma {:induction false} UndrainedHolds(weights: seq<nat>, n: nat)
    requires n <= |weights|
    ensures forall i :: i in Undrained(weights, n) <==> 0 <= i < n && weights[i] > 0
    ensures forall j :: 0 <= j < |Undrained(weights, n)| ==> Undrained(weights, n)[j] < n
    ensures forall j, k :: 0 <= j < k < |Undrained(weights, n)| ==> Undrained(weights, n)[j] < Undrained(weights, n)[k]
  {
    if n > 0 {
      UndrainedHolds(weights, n - 1);
    }
  }

  predicate AllDrained(weights: seq<nat>) {
    forall i :: 0 <= i < |weights| ==> weights[i] == 0
  }

  /** No endpoint is live twice, an undrained one always is, and a drained one only where all are drained. */
  lemma LiveHolds(weights: seq<nat>)
    ensures forall j, k :: 0 <= j < k < |LiveOf(weights)| ==> LiveOf(weights)[j] < LiveOf(weights)[k]
    ensures forall j :: 0 <= j < |LiveOf(weights)| && weights[LiveOf(weights)[j]] == 0 ==> AllDrained(weights)
    ensures forall i :: 0 <= i < |weights| && weights[i] > 0 ==> i in LiveOf(weights)
  {
    UndrainedHolds(weights, |weights|);
    if Undrained(weights, |weights|) == [] {
      forall k | 0 <= k < |weights| ensures weights[k] == 0 {
        assert k !in Undrained(weights, |weights|);
      }
    } else {
      forall j | 0 <= j < |LiveOf(weights)| ensures weights[LiveOf(weights)[j]] > 0 {
        assert LiveOf(weights)[j] in Undrained(weights, |weights|);
      }
    }
  }

  // ----- shares -----

  /** The running total of the shares of the first `n` live endpoints. */
  function Running(weights: seq<nat>, live: seq<nat>, n: nat): nat
    requires n <= |live| && forall j :: 0 <= j < |live| ==> live[j] < |weights|
  {
    if n == 0 then 0 else Running(weights, live, n - 1) + weights[live[n - 1]]
  }

  lemma {:induction false} RunningRises(weights: seq<nat>, live: seq<nat>, a: nat, b: nat)
    requires a <= b <= |live| && forall j :: 0 <= j < |live| ==> live[j] < |weights|
    ensures Running(weights, live, a) <= Running(weights, live, b)
    decreases b - a
  {
    if a < b {
      RunningRises(weights, live, a, b - 1);
    }
  }

  /** How many of an ascending sequence's leading elements are at most `rolled`. */
  function PartitionPoint(shares: seq<nat>, rolled: nat): (n: nat)
    ensures n <= |shares|
    ensures forall i :: 0 <= i < n ==> shares[i] <= rolled
    ensures n < |shares| ==> rolled < shares[n]
  {
    if shares == [] || rolled < shares[0] then 0 else 1 + PartitionPoint(shares[1..], rolled)
  }

  function SharesOf(weights: seq<nat>): seq<nat> {
    var live := LiveOf(weights);
    seq(|live|, i requires 0 <= i < |live| => Running(weights, live, i + 1))
  }

  function TotalOf(weights: seq<nat>): nat {
    Running(weights, LiveOf(weights), |LiveOf(weights)|)
  }

  /** Where a draw goes: the live endpoint at the draw's place among the running totals. */
  function AtShare(weights: seq<nat>, rolled: nat): nat
    requires weights != []
  {
    var live := LiveOf(weights);
    live[Min(PartitionPoint(SharesOf(weights), rolled), |live| - 1)]
  }

  /** A draw falls to an endpoint exactly between the running totals before it and up to it. */
  lemma ADrawFallsBetween(weights: seq<nat>, j: nat, rolled: nat)
    requires weights != [] && rolled < TotalOf(weights) && j < |LiveOf(weights)|
    ensures
      var live := LiveOf(weights);
      AtShare(weights, rolled) == live[j] <==> Running(weights, live, j) <= rolled < Running(weights, live, j + 1)
  {
    hide LiveOf, Running, PartitionPoint;
    LiveHolds(weights);
    var live, shares := LiveOf(weights), SharesOf(weights);
    var at := PartitionPoint(shares, rolled);
    NothingRunsBeforeTheFirst(weights, live);
    assert shares[|live| - 1] == TotalOf(weights);
    if at < j {
      RunningRises(weights, live, at + 1, j);
    } else {
      assert shares[j] == Running(weights, live, j + 1);
      assert j > 0 ==> shares[j - 1] == Running(weights, live, j);
    }
  }

  lemma NothingRunsBeforeTheFirst(weights: seq<nat>, live: seq<nat>)
    requires forall j :: 0 <= j < |live| ==> live[j] < |weights|
    ensures Running(weights, live, 0) == 0
  {
  }

  /** How many of the draws below `n` fall to an endpoint. */
  function DrawsTo(weights: seq<nat>, at: nat, n: nat): nat
    requires weights != []
  {
    if n == 0 then 0
    else DrawsTo(weights, at, n - 1) + if AtShare(weights, n - 1) == at then 1 else 0
  }

  lemma {:induction false} DrawsSoFar(weights: seq<nat>, j: nat, n: nat)
    requires weights != [] && j < |LiveOf(weights)| && n <= TotalOf(weights)
    ensures
      var live := LiveOf(weights);
      var lo, hi := Running(weights, live, j), Running(weights, live, j + 1);
      DrawsTo(weights, live[j], n) == if n <= lo then 0 else if n <= hi then n - lo else hi - lo
    decreases n
  {
    RunningRises(weights, LiveOf(weights), j, j + 1);
    if n > 0 {
      hide LiveOf, AtShare, TotalOf, Running;
      DrawsSoFar(weights, j, n - 1);
      ADrawFallsBetween(weights, j, n - 1);
    }
  }

  /** Of the draws below the total, exactly as many fall to a live endpoint as its share says. */
  lemma SharesAreExact(weights: seq<nat>, j: nat)
    requires weights != [] && j < |LiveOf(weights)|
    ensures
      var at := LiveOf(weights)[j];
      DrawsTo(weights, at, TotalOf(weights)) == weights[at]
  {
    RunningRises(weights, LiveOf(weights), j + 1, |LiveOf(weights)|);
    DrawsSoFar(weights, j, TotalOf(weights));
  }

  // ----- turns -----

  /** How many of the `count` turns from `turn` on fall to place `j` of `n`. */
  function TurnsTo(turn: nat, count: nat, n: nat, j: nat): nat
    requires n > 0
    decreases count
  {
    if count == 0 then 0
    else (if turn % n == j then 1 else 0) + TurnsTo(turn + 1, count - 1, n, j)
  }

  lemma {:induction false} TurnsInParts(turn: nat, a: nat, b: nat, n: nat, j: nat)
    requires n > 0
    ensures TurnsTo(turn, a + b, n, j) == TurnsTo(turn, a, n, j) + TurnsTo(turn + a, b, n, j)
    decreases a
  {
    if a > 0 {
      TurnsInParts(turn + 1, a - 1, b, n, j);
    }
  }

  lemma {:induction false} FirstTurns(count: nat, n: nat, j: nat)
    requires count <= n && j < n && n > 0
    ensures TurnsTo(0, count, n, j) == if j < count then 1 else 0
    decreases count
  {
    if count > 0 {
      FirstTurns(count - 1, n, j);
      TurnsInParts(0, count - 1, 1, n, j);
      assert (count - 1) % n == count - 1;
    }
  }

  /** Any `n` turns in a row give each of `n` places one. */
  lemma {:induction false} OneRound(turn: nat, n: nat, j: nat)
    requires j < n
    ensures TurnsTo(turn, n, n, j) == 1
    decreases turn
  {
    if turn == 0 {
      FirstTurns(n, n, j);
    } else {
      OneRound(turn - 1, n, j);
      TurnsInParts(turn - 1, 1, n - 1, n, j);
      TurnsInParts(turn, n - 1, 1, n, j);
      assert TurnsTo(turn - 1, 1, n, j) == if (turn - 1) % n == j then 1 else 0;
      assert TurnsTo(turn + n - 1, 1, n, j) == if (turn + n - 1) % n == j then 1 else 0;
      ARoundLater(turn - 1, n);
    }
  }

  lemma ARoundLater(turn: nat, n: nat)
    requires n > 0
    ensures (turn + n) % n == turn % n
  {
    var q, r := turn / n, turn % n;
    var q', r' := (turn + n) / n, (turn + n) % n;
    assert turn == q * n + r && turn + n == q' * n + r';
    assert (q + 1) * n == q * n + n;
    OneRemainder(q + 1, r, q', r', n);
  }

  lemma OneRemainder(q: nat, r: nat, q': nat, r': nat, n: nat)
    requires r < n && r' < n && q * n + r == q' * n + r'
    ensures r == r'
  {
    if q < q' {
      assert (q + 1) * n == q * n + n;
      AtMost(q + 1, q', n);
    } else if q' < q {
      assert (q' + 1) * n == q' * n + n;
      AtMost(q' + 1, q, n);
    }
  }

  lemma {:induction false} ManyRounds(turn: nat, n: nat, k: nat, j: nat)
    requires j < n
    ensures TurnsTo(turn, n * k, n, j) == k
    decreases k
  {
    if k > 0 {
      assert n * k == n + n * (k - 1);
      TurnsInParts(turn, n, n * (k - 1), n, j);
      OneRound(turn, n, j);
      ManyRounds(turn + n, n, k - 1, j);
    }
  }

  /** How many of the `count` requests sent in turn, from a 64-bit `turn` on, go to an endpoint. */
  function SentTo(live: seq<nat>, at: nat, turn: nat, count: nat): nat
    requires live != []
    decreases count
  {
    if count == 0 then 0
    else (if live[turn % |live|] == at then 1 else 0) + SentTo(live, at, (turn + 1) % U64_SPAN, count - 1)
  }

  lemma {:induction false} SentInTurn(live: seq<nat>, j: nat, turn: nat, count: nat)
    requires j < |live| && turn + count <= U64_SPAN
    requires forall i :: 0 <= i < |live| ==> (live[i] == live[j] <==> i == j)
    ensures SentTo(live, live[j], turn, count) == TurnsTo(turn, count, |live|, j)
    decreases count
  {
    if count > 1 {
      SentInTurn(live, j, turn + 1, count - 1);
      NotYetWrapped(turn + 1);
    }
  }

  lemma NotYetWrapped(turn: nat)
    requires turn < U64_SPAN
    ensures turn % U64_SPAN == turn
  {
  }

  /** While the turn does not wrap, any `n * k` requests in a row give each of `n` live endpoints exactly `k`. */
  lemma TurnsAreFair(weights: seq<nat>, j: nat, turn: nat, k: nat)
    requires j < |LiveOf(weights)| && turn + |LiveOf(weights)| * k <= U64_SPAN
    ensures SentTo(LiveOf(weights), LiveOf(weights)[j], turn, |LiveOf(weights)| * k) == k
  {
    hide LiveOf, SentTo, TurnsTo;
    LiveHolds(weights);
    SentInTurn(LiveOf(weights), j, turn, |LiveOf(weights)| * k);
    ManyRounds(turn, |LiveOf(weights)|, k, j);
  }

  // ----- load -----

  /** What an endpoint takes once an answer is folded in; zero is one that has never answered. */
  function Folded(held: nat, micros: nat): nat {
    if held == 0 then micros else held - held / SMOOTHING + micros / SMOOTHING
  }

  function FoldedAll(held: nat, answers: seq<nat>): nat {
    if answers == [] then held else Folded(FoldedAll(held, answers[..|answers| - 1]), answers[|answers| - 1])
  }

  /**
   The average stays between the least and the greatest latency folded in, so it never overflows
   what they fit in and never comes back to the zero that means untried.
   */
  lemma {:induction false} TheAverageStaysBetween(answers: seq<nat>, lo: nat, hi: nat)
    requires answers != [] && 1 <= lo && forall i :: 0 <= i < |answers| ==> lo <= answers[i] <= hi
    ensures lo <= FoldedAll(0, answers) <= hi
    decreases |answers|
  {
    var n := |answers| - 1;
    if n == 0 {
      assert answers[..0] == [];
    } else {
      TheAverageStaysBetween(answers[..n], lo, hi);
    }
  }

  /** What an endpoint takes after `n` answers that all took `micros`. */
  function Settling(held: nat, micros: nat, n: nat): nat {
    if n == 0 then held else Folded(Settling(held, micros, n - 1), micros)
  }

  /** Under one constant latency the average only ever moves towards it. */
  lemma TheAverageMovesTowards(held: nat, micros: nat)
    requires held > 0 && micros > 0
    ensures held <= micros ==> held <= Folded(held, micros) <= micros
    ensures micros <= held ==> micros <= Folded(held, micros) <= held
    ensures Folded(held, micros) == held <==> held / SMOOTHING == micros / SMOOTHING
  {
  }

  /** And it comes to rest within one fifth of it: at most four microseconds away. */
  lemma {:induction false} TheAverageSettles(held: nat, micros: nat, n: nat)
    requires held > 0 && micros > 0
    requires held <= micros + n && micros <= held + n
    ensures
      var end := Settling(held, micros, n);
      end > 0 && end / SMOOTHING == micros / SMOOTHING && end <= micros + 4 && micros <= end + 4
    decreases n
  {
    if n > 0 {
      if held / SMOOTHING == micros / SMOOTHING {
        AtRest(held, micros, n);
      } else {
        TheAverageMovesTowards(held, micros);
        TheAverageSettles(Folded(held, micros), micros, n - 1);
        FirstAnswerFirst(held, micros, n);
      }
    }
  }

  lemma {:induction false} AtRest(held: nat, micros: nat, n: nat)
    requires held > 0 && held / SMOOTHING == micros / SMOOTHING
    ensures Settling(held, micros, n) == held
  {
    if n > 0 {
      AtRest(held, micros, n - 1);
    }
  }

  lemma {:induction false} FirstAnswerFirst(held: nat, micros: nat, n: nat)
    requires n > 0
    ensures Settling(held, micros, n) == Settling(Folded(held, micros), micros, n - 1)
  {
    if n > 1 {
      FirstAnswerFirst(held, micros, n - 1);
    }
  }

  /** The product an endpoint is ranked by, its count plus one times its average, reduced modulo 2^64. */
  function Score(inFlight: nat, latency: nat): nat {
    (inFlight + 1) * (if latency == 0 then UNKNOWN_LATENCY else latency) % U64_SPAN
  }

  /** While latencies fit 32 bits no score overflows. */
  lemma ScoresFit(inFlight: nat, latency: nat)
    requires inFlight < U32_SPAN && latency < U32_SPAN
    ensures
      var taking := if latency == 0 then UNKNOWN_LATENCY else latency;
      Score(inFlight, latency) == (inFlight + 1) * taking < U64_SPAN - 1
  {
    var taking := if latency == 0 then UNKNOWN_LATENCY else latency;
    var score := (inFlight + 1) * taking;
    assert score <= U32_SPAN * taking by { AtMost(inFlight + 1, U32_SPAN, taking); }
    assert U32_SPAN * taking <= U32_SPAN * (U32_SPAN - 1);
  }

  lemma AtMost(a: nat, b: nat, n: nat)
    requires a <= b
    ensures a * n <= b * n
  {
  }

  /** The endpoints that take requests, in order. */
  method FindLive(weights: seq<nat>) returns (live: seq<nat>)
    ensures live == LiveOf(weights)
  {
    live := [];
    for at := 0 to |weights|
      invariant live == Undrained(weights, at)
    {
      if weights[at] != 0 {
        live := live + [at];
      }
    }
    if live == [] {
      live := seq(|weights|, i => i);
    }
  }

  /** The running total of the live endpoints' shares. */
  method AddShares(weights: seq<nat>, live: seq<nat>) returns (shares: seq<nat>)
    requires live == LiveOf(weights)
    ensures shares == SharesOf(weights)
  {
    hide LiveOf;
    var running := 0;
    shares := [];
    for j := 0 to |live|
      invariant |shares| == j && running == Running(weights, live, j)
      invariant forall i :: 0 <= i < j ==> shares[i] == Running(weights, live, i + 1)
    {
      running := running + weights[live[j]];
      shares := shares + [running];
    }
  }

  /** A 32-bit count, one more of it and one fewer. */
  function Wrapped(count: nat): nat { count % U32_SPAN }
  function Up(held: nat): nat { (held + 1) % U32_SPAN }
  function Down(held: nat): nat { (held + U32_SPAN - 1) % U32_SPAN }

  lemma UpAndDown(count: nat)
    ensures Up(Wrapped(count)) == Wrapped(count + 1)
    ensures Down(Wrapped(count + 1)) == Wrapped(count)
  {
  }

  lemma SmallCountsAreExact(count: nat)
    requires count < U32_SPAN
    ensures Wrapped(count) == count
  {
  }

  /** How long a request took as a 64-bit count that is never the zero of an endpoint untried. */
  function Micros(elapsed: nat): (micros: nat)
    ensures 1 <= micros < U64_SPAN
    ensures 1 <= elapsed < U64_SPAN ==> micros == elapsed
    ensures elapsed == 0 ==> micros == 1
    ensures elapsed >= U64_SPAN ==> micros == U64_SPAN - 1
  {
    Max(1, Min(elapsed, U64_SPAN - 1))
  }

  datatype Answered = Answered(at: nat, micros: nat)

  /** The dispatcher's state for one rule: fixed weights, live list and shares, and the counters that move. */
  class Plan {
    const weights: seq<nat>
    const live: seq<nat>
    const shares: seq<nat>
    var turn: nat
    var inFlight: seq<nat>
    var latency: seq<nat>
    ghost var outstanding: multiset<nat>    // where the requests not yet done with were sent

    ghost predicate Valid()
      reads this
    {
      && weights != [] && live == LiveOf(weights) && shares == SharesOf(weights)
      && live != [] && (forall j :: 0 <= j < |live| ==> live[j] < |weights|)
      && turn < U64_SPAN
      && |inFlight| == |latency| == |weights|
      && (forall i :: i in outstanding ==> i < |weights|)
      && (forall i :: 0 <= i < |weights| ==> inFlight[i] == Wrapped(outstanding[i]))
    }

    constructor (weights: seq<nat>)
      requires weights != []
      ensures Valid() && this.weights == weights && turn == 0 && outstanding == multiset{}
      ensures forall i :: 0 <= i < |weights| ==> inFlight[i] == 0 && latency[i] == 0
    {
      hide LiveOf, SharesOf;
      var found := FindLive(weights);
      var totals := AddShares(weights, found);
      this.weights, this.live, this.shares := weights, found, totals;
      turn, inFlight, latency := 0, seq(|weights|, i => 0), seq(|weights|, i => 0);
      outstanding := multiset{};
    }

    /** Answers the live endpoint at the turn's place, and counts the turn on by one modulo 2^64. */
    method InTurn() returns (at: nat)
      requires Valid()
      modifies this`turn
      ensures Valid()
      ensures at == live[old(turn) % |live|]
      ensures turn == (old(turn) + 1) % U64_SPAN
    {
      hide LiveOf, SharesOf;
      at := live[turn % |live|];
      turn := (turn + 1) % U64_SPAN;
    }

    /** The score of the `k`th live endpoint as things stand. */
    function Wait(k: nat): nat
      requires Valid() && k < |live|
      reads this
    {
      Score(inFlight[live[k]], latency[live[k]])
    }

    /** Whether place `k` has the least wait of all, and every place before it a greater one. */
    ghost predicate Lightest(k: nat)
      requires Valid()
      reads this
    {
      && k < |live|
      && (forall j :: 0 <= j < |live| ==> Wait(k) <= Wait(j))
      && (forall j :: 0 <= j < k ==> Wait(k) < Wait(j))
    }

    ghost predicate LatenciesFit()
      reads this
    {
      forall i :: 0 <= i < |latency| ==> latency[i] < U32_SPAN
    }

    /** A scan that answers a least wait, and the first of them while no score wraps. */
    method FindLightest() returns (at: nat)
      requires Valid()
      ensures at in live
      ensures LatenciesFit() ==> exists k :: 0 <= k < |live| && live[k] == at && Lightest(k)
    {
      hide Score, LiveOf, SharesOf;
      ghost var best := 0;
      at := live[0];
      var least := U64_SPAN - 1;
      for k := 0 to |live|
        invariant 0 <= best < |live| && live[best] == at
        invariant k == 0 ==> least == U64_SPAN - 1
        invariant LatenciesFit() && k > 0 ==> best < k && least == Wait(best)
        invariant LatenciesFit() ==> forall j :: 0 <= j < k ==> least <= Wait(j)
        invariant LatenciesFit() && k > 0 ==> forall j :: 0 <= j < best ==> least < Wait(j)
      {
        var score := Wait(k);
        if LatenciesFit() {
          ScoresFit(inFlight[live[k]], latency[live[k]]);
        }
        if score < least {
          least := score;
          at := live[k];
          best := k;
        }
      }
    }

    /** Which endpoint the rule's strategy gives a request. */
    method Pick(strategy: Strategy, rolled: nat) returns (at: nat)
      requires Valid()
      modifies this`turn
      ensures Valid() && at in live
      ensures strategy.RoundRobin? ==> at == live[old(turn) % |live|] && turn == (old(turn) + 1) % U64_SPAN
      ensures !strategy.RoundRobin? ==> turn == old(turn)
      ensures strategy.LeastLoad? && LatenciesFit() ==> exists k :: 0 <= k < |live| && live[k] == at && Lightest(k)
      ensures strategy.Ratio? && TotalOf(weights) > 0 ==> at == AtShare(weights, rolled % TotalOf(weights))
      ensures strategy.Ratio? && TotalOf(weights) == 0 ==> at == live[0]
    {
      hide Score, AtShare, SharesOf, Running, LiveOf, TotalOf, Wrapped;
      match strategy {
        case RoundRobin => at := InTurn();
        case LeastLoad => at := FindLightest();
        case Ratio =>
          var total := Total();
          at := if total == 0 then live[0] else FallsTo(rolled % total);
      }
    }

    /** Picks by strategy, then adds one to the picked endpoint's count and to its outstanding requests. */
    method Choose(strategy: Strategy, rolled: nat) returns (at: nat)
      requires Valid()
      modifies this`turn, this`inFlight, this`outstanding
      ensures Valid()
      ensures at < |weights| && (weights[at] == 0 ==> AllDrained(weights))
      ensures outstanding == old(outstanding) + multiset{at}
      ensures strategy.RoundRobin? ==> at == live[old(turn) % |live|] && turn == (old(turn) + 1) % U64_SPAN
      ensures !strategy.RoundRobin? ==> turn == old(turn)
      ensures strategy.LeastLoad? && old(LatenciesFit()) ==>
                exists k :: 0 <= k < |live| && live[k] == at && old(Lightest(k))
      ensures strategy.Ratio? && TotalOf(weights) > 0 ==> at == AtShare(weights, rolled % TotalOf(weights))
      ensures strategy.Ratio? && TotalOf(weights) == 0 ==> at == live[0]
    {
      hide Score, AtShare, SharesOf, Running, LiveOf, AllDrained, TotalOf, Wrapped, Up, Down;
      LiveHolds(weights);
      at := Pick(strategy, rolled);
      UpAndDown(outstanding[at]);
      inFlight := inFlight[at := Up(inFlight[at])];
      outstanding := outstanding + multiset{at};
    }

    function Total(): (total: nat)
      requires Valid()
      reads this
      ensures total == TotalOf(weights)
    {
      LiveHolds(weights);
      shares[|shares| - 1]
    }

    function FallsTo(rolled: nat): (at: nat)
      requires Valid()
      reads this
      ensures at == AtShare(weights, rolled) && at in live
    {
      LiveHolds(weights);
      live[Min(PartitionPoint(shares, rolled), |live| - 1)]
    }

    /** A request that is done is counted no longer; how long it took goes to the folder. */
    method Drop(at: nat, elapsed: nat) returns (answer: Answered)
      requires Valid() && at in outstanding
      modifies this`inFlight, this`outstanding
      ensures Valid()
      ensures outstanding == old(outstanding) - multiset{at}
      ensures answer == Answered(at, Micros(elapsed))
    {
      hide LiveOf, SharesOf, Wrapped, Up, Down, Micros;
      UpAndDown(outstanding[at] - 1);
      inFlight := inFlight[at := Down(inFlight[at])];
      outstanding := outstanding - multiset{at};
      answer := Answered(at, Micros(elapsed));
    }

    /** Leaves each endpoint's average folded over its own answers of the batch, in their order. */
    method Fold(batch: seq<Answered>)
      requires Valid() && forall i :: 0 <= i < |batch| ==> batch[i].at < |weights|
      modifies this`latency
      ensures Valid()
      ensures forall at :: 0 <= at < |weights| ==> latency[at] == FoldedAll(old(latency)[at], MicrosOf(batch, at))
    {
      hide LiveOf, SharesOf, MicrosOf, Folded, FoldedAll;
      assert batch[..0] == [];
      forall at | 0 <= at < |weights| ensures latency[at] == FoldedAll(latency[at], MicrosOf(batch[..0], at)) {
        NothingFolded(latency[at], at);
      }
      for i := 0 to |batch|
        invariant Valid()
        invariant forall at :: 0 <= at < |weights| ==>
                    latency[at] == FoldedAll(old(latency)[at], MicrosOf(batch[..i], at))
      {
        forall at | 0 <= at < |weights|
          ensures FoldedAll(old(latency)[at], MicrosOf(batch[..i + 1], at))
               == if batch[i].at == at then Folded(latency[at], batch[i].micros) else latency[at]
        {
          FoldedOneMore(old(latency)[at], batch, i, at);
        }
        latency := latency[batch[i].at := Folded(latency[batch[i].at], batch[i].micros)];
      }
      assert batch[..|batch|] == batch;
    }
  }

  lemma NothingFolded(held: nat, at: nat)
    ensures FoldedAll(held, MicrosOf([], at)) == held
  {
  }

  lemma FoldedOneMore(held: nat, batch: seq<Answered>, i: nat, at: nat)
    requires i < |batch|
    ensures
      var before := FoldedAll(held, MicrosOf(batch[..i], at));
      FoldedAll(held, MicrosOf(batch[..i + 1], at))
        == if batch[i].at == at then Folded(before, batch[i].micros) else before
  {
    assert batch[..i + 1][..i] == batch[..i];
    var micros := MicrosOf(batch[..i], at);
    assert (micros + [batch[i].micros])[..|micros|] == micros;
    assert batch[i].at != at ==> MicrosOf(batch[..i + 1], at) == micros;
  }

  /** The latencies one endpoint answered with, in order. */
  function MicrosOf(batch: seq<Answered>, at: nat): seq<nat>
    decreases |batch|
  {
    if batch == [] then []
    else
      var last := batch[|batch| - 1];
      MicrosOf(batch[..|batch| - 1], at) + if last.at == at then [last.micros] else []
  }
}
