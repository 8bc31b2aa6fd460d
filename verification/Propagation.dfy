/**
 How a rule set travels from storage through the cache to the nodes that serve it.

 Storage commits revisioned sets, publishers race to land them in the cache, the cache announces
 what landed, followers wake and reload, and healers publish again what a failed publish left
 behind. Every step below is one that no other step can fall inside of; a run is any legal
 sequence of them.
 */
module Propagation {
  import opened Common

  /** One whole set of rules, its three parts apart since a start reads them one by one. */
  datatype RuleSet = RuleSet(routes: seq<string>, plugins: seq<string>, limits: seq<string>)

  datatype Published = Published(revision: nat, rules: RuleSet)

  /** Where one publish, or one heal that may become one, has got to. */
  datatype Publisher =
    | Checking(stored: nat)
    | Fetching
    | Holding(held: Published)
    | Comparing(held: Published, seen: Option<Published>)

  datatype PublishStep =
    | StartPublish
    | StartHeal
    | HealCompares
    | Fetch
    | Land       // the redis script: check, write and announce at once
    | Compare    // the sled loop: read and check ...
    | Swap       // ... then swap, or go round again
    | Abort

  /** Where one node has got to, from reading its first rules to following the published ones. */
  datatype Phase =
    | LoadingRoutes
    | LoadingRules
    | LoadingLimits
    | Booted
    | Subscribed
    | Stopped
    | Waiting
    | Reloading
    | Building(taken: Published)
    | Retrying

  /** The connection announcements come over. */
  datatype Line = Off | On | Lost | CatchingUp

  datatype Node = Node(
    phase: Phase,
    startedAt: nat,      // the revision read before the first rules were
    applied: nat,        // the revision the node takes itself to serve
    reloaded: bool,      // whether it has put a published set in force yet
    serving: RuleSet,
    first: nat,          // what the watch held when following began, which counts as seen
    watch: nat,          // the newest revision announced to this node
    unseen: bool,        // whether the watch moved since it was last looked at
    line: Line,
    transit: seq<nat>,   // announcements sent and not yet taken in, oldest first
    missed: bool         // whether a catch-up after a lost line failed, with nothing landing since
  )

  datatype NodeStep =
    | LoadRoutes | LoadRules | LoadLimits
    | Subscribe | ReadFirst | GiveUp
    | Deliver | Lose | Resubscribe | CatchUp | CatchUpFails
    | Wake | TakePublished | Apply | ReloadFails | Retry | RetryOnChange

  datatype World = World(
    stored: nat,
    log: map<nat, RuleSet>,     // every set storage has held, by its revision
    published: Option<Published>,
    publishers: map<nat, Publisher>,
    nodes: seq<Node>
  )

  datatype Action =
    | Commit(revision: nat, rules: RuleSet)
    | Publishing(id: nat, publish: PublishStep)
    | Boot
    | AtNode(at: nat, step: NodeStep)

  // ----- what each step does -----

  /** The published revision, which a follower reads as zero while nothing is published. */
  function PublishedRevision(published: Option<Published>): nat {
    if published.None? then 0 else published.value.revision
  }

  /** Whether a publish at `revision` would land over what is published. */
  predicate IsNewer(revision: nat, published: Option<Published>) {
    published.None? || published.value.revision < revision
  }

  predicate Following(n: Node) {
    n.phase.Waiting? || n.phase.Reloading? || n.phase.Building? || n.phase.Retrying?
  }

  /** Moves a follower's watch on, when that is news to it. */
  function Announce(n: Node, revision: nat): Node {
    if revision > n.watch then n.(watch := revision, unseen := true) else n
  }

  /** What a landed publication does to a node: it is sent to every line that is up. */
  function Hear(n: Node, revision: nat): Node {
    if n.line.On? || n.line.CatchingUp? then n.(transit := n.transit + [revision], missed := false) else n
  }

  /** A publication written and announced. */
  function Landed(w: World, p: Published): World {
    w.(published := Some(p), nodes := seq(|w.nodes|, i requires 0 <= i < |w.nodes| => Hear(w.nodes[i], p.revision)))
  }

  predicate PublishEnabled(w: World, id: nat, a: PublishStep) {
    match a
    case StartPublish => id !in w.publishers
    case StartHeal => id !in w.publishers
    case HealCompares => id in w.publishers && w.publishers[id].Checking?
    case Fetch => id in w.publishers && w.publishers[id].Fetching?
    case Land => id in w.publishers && w.publishers[id].Holding?
    case Compare => id in w.publishers && w.publishers[id].Holding?
    case Swap => id in w.publishers && w.publishers[id].Comparing?
    case Abort => id in w.publishers
  }

  function PublishNext(w: World, id: nat, a: PublishStep): World
    requires PublishEnabled(w, id, a)
    requires w.stored in w.log
  {
    var gone := w.(publishers := w.publishers - {id});
    match a
    case StartPublish => w.(publishers := w.publishers[id := Fetching])
    case StartHeal => w.(publishers := w.publishers[id := Checking(w.stored)])
    case HealCompares =>
      if w.published.Some? && w.published.value.revision >= w.publishers[id].stored then gone
      else w.(publishers := w.publishers[id := Fetching])
    case Fetch => w.(publishers := w.publishers[id := Holding(Published(w.stored, w.log[w.stored]))])
    case Land =>
      var held := w.publishers[id].held;
      if IsNewer(held.revision, w.published) then Landed(gone, held) else gone
    case Compare =>
      var held := w.publishers[id].held;
      if IsNewer(held.revision, w.published) then w.(publishers := w.publishers[id := Comparing(held, w.published)])
      else gone
    case Swap =>
      var Comparing(held, seen) := w.publishers[id];
      if w.published == seen then Landed(gone, held) else w.(publishers := w.publishers[id := Holding(held)])
    case Abort => gone
  }

  predicate NodeEnabled(w: World, n: Node, a: NodeStep) {
    match a
    case LoadRoutes => n.phase.LoadingRoutes?
    case LoadRules => n.phase.LoadingRules?
    case LoadLimits => n.phase.LoadingLimits?
    case Subscribe => n.phase.Booted?
    case ReadFirst => n.phase.Subscribed?
    case GiveUp => n.phase.Booted? || n.phase.Subscribed?
    case Deliver => Following(n) && n.line in {On, CatchingUp} && n.transit != []
    case Lose => Following(n) && n.line in {On, CatchingUp}
    case Resubscribe => Following(n) && n.line.Lost?
    case CatchUp => Following(n) && n.line.CatchingUp?
    case CatchUpFails => Following(n) && n.line.CatchingUp?
    case Wake => n.phase.Waiting? && n.unseen
    case TakePublished => n.phase.Reloading?
    case Apply => n.phase.Building?
    case ReloadFails => n.phase.Reloading? || n.phase.Building?
    case Retry => n.phase.Retrying?
    case RetryOnChange => n.phase.Retrying? && n.unseen
  }

  function NodeNext(w: World, n: Node, a: NodeStep): Node
    requires NodeEnabled(w, n, a)
    requires w.stored in w.log
  {
    match a
    case LoadRoutes => n.(phase := LoadingRules, serving := n.serving.(routes := w.log[w.stored].routes))
    case LoadRules => n.(phase := LoadingLimits, serving := n.serving.(plugins := w.log[w.stored].plugins))
    case LoadLimits => n.(phase := Booted, serving := n.serving.(limits := w.log[w.stored].limits))
    case Subscribe => n.(phase := Subscribed, line := On)
    case ReadFirst =>
      var now := PublishedRevision(w.published);
      n.(phase := Waiting, first := now, watch := now, unseen := false)
    case GiveUp => n.(phase := Stopped, line := Off, transit := [])
    case Deliver => Announce(n.(transit := n.transit[1..]), n.transit[0])
    case Lose => n.(line := Lost, transit := [])
    case Resubscribe => n.(line := CatchingUp)
    case CatchUp => Announce(n.(line := On, missed := false), PublishedRevision(w.published))
    case CatchUpFails => n.(line := On, missed := true)
    case Wake =>
      if n.watch <= n.applied then n.(unseen := false) else n.(unseen := false, phase := Reloading)
    case TakePublished =>
      if w.published.None? then n.(phase := Waiting) else n.(phase := Building(w.published.value))
    case Apply =>
      n.(phase := Waiting, applied := n.phase.taken.revision, serving := n.phase.taken.rules, reloaded := true)
    case ReloadFails => n.(phase := Retrying)
    case Retry => n.(phase := Reloading)
    case RetryOnChange => n.(phase := Reloading, unseen := false)
  }

  /** A node that has read the revision it starts at, and nothing else yet. */
  function Starting(w: World): Node {
    Node(LoadingRoutes, w.stored, w.stored, false, RuleSet([], [], []), 0, 0, false, Off, [], false)
  }

  predicate Enabled(w: World, a: Action) {
    match a
    case Commit(revision, _) => revision > w.stored
    case Publishing(id, publish) => PublishEnabled(w, id, publish)
    case Boot => true
    case AtNode(at, step) => at < |w.nodes| && NodeEnabled(w, w.nodes[at], step)
  }

  function Next(w: World, a: Action): World
    requires Enabled(w, a)
    requires w.stored in w.log
  {
    match a
    case Commit(revision, rules) => w.(stored := revision, log := w.log[revision := rules])
    case Publishing(id, publish) => PublishNext(w, id, publish)
    case Boot => w.(nodes := w.nodes + [Starting(w)])
    case AtNode(at, step) => w.(nodes := w.nodes[at := NodeNext(w, w.nodes[at], step)])
  }

  /** Storage holding its first rules, and nothing else anywhere. */
  function Fresh(rules: RuleSet): World {
    World(0, map[0 := rules], None, map[], [])
  }

  // ----- what every step keeps -----

  predicate StorageKnows(w: World, p: Published) {
    p.revision in w.log && p.rules == w.log[p.revision]
  }

  predicate PublisherFits(w: World, p: Publisher) {
    match p
    case Checking(stored) => stored <= w.stored
    case Fetching => true
    case Holding(held) => StorageKnows(w, held)
    case Comparing(held, seen) => StorageKnows(w, held) && IsNewer(held.revision, seen)
  }

  /** What the node has loaded so far is storage's, when storage has not moved since it started. */
  predicate LoadedSoFar(n: Node, rules: RuleSet) {
    && (!n.phase.LoadingRoutes? ==> n.serving.routes == rules.routes)
    && (!n.phase.LoadingRoutes? && !n.phase.LoadingRules? ==> n.serving.plugins == rules.plugins)
    && (!n.phase.LoadingRoutes? && !n.phase.LoadingRules? && !n.phase.LoadingLimits? ==>
          n.serving.limits == rules.limits)
  }

  predicate ServesWhatItApplied(w: World, n: Node)
    requires w.stored in w.log
  {
    && n.startedAt <= n.applied <= w.stored
    && (n.reloaded ==> StorageKnows(w, Published(n.applied, n.serving)))
    && (!n.reloaded ==> n.applied == n.startedAt)
    && (!n.reloaded && n.startedAt == w.stored ==> LoadedSoFar(n, w.log[w.stored]))
  }

  predicate BuildFits(w: World, n: Node) {
    n.phase.Building? ==>
      var taken := n.phase.taken;
      && StorageKnows(w, taken)
      && taken.revision <= PublishedRevision(w.published)
      && n.applied < taken.revision
      && n.first <= taken.revision
      && (!n.unseen ==> n.watch <= taken.revision)
  }

  /** The watch of a follower, against what it serves and what is published. */
  predicate WatchFits(w: World, n: Node) {
    && n.first <= n.watch <= PublishedRevision(w.published)
    && (n.unseen || n.reloaded || !n.phase.Waiting? ==> n.first < n.watch)
    && (n.reloaded ==> n.first <= n.applied)
    && (!n.phase.Waiting? ==> n.applied < n.watch)
    && (n.phase.Waiting? && !n.unseen ==> n.watch <= Max(n.applied, n.first))
  }

  /** Nothing published is hidden from a follower whose line has been up: it was heard or is on its way. */
  predicate HeardOf(w: World, n: Node) {
    n.line.On? && !n.missed ==>
      PublishedRevision(w.published) <= n.watch || PublishedRevision(w.published) in n.transit
  }

  predicate NodeFits(w: World, n: Node)
    requires w.stored in w.log
  {
    && ServesWhatItApplied(w, n)
    && (forall t :: t in n.transit ==> t <= PublishedRevision(w.published))
    && (!Following(n) ==> !n.reloaded && !n.missed)
    && (n.phase.Subscribed? ==> n.line.On?)
    && (Following(n) ==> !n.line.Off?)
    && (Following(n) ==> WatchFits(w, n) && BuildFits(w, n) && HeardOf(w, n))
  }

  predicate Inv(w: World) {
    && w.stored in w.log
    && (forall r :: r in w.log ==> r <= w.stored)
    && (w.published.Some? ==> StorageKnows(w, w.published.value))
    && (forall id :: id in w.publishers ==> PublisherFits(w, w.publishers[id]))
    && (forall i :: 0 <= i < |w.nodes| ==> NodeFits(w, w.nodes[i]))
  }

  /** How one world may follow another: storage's history grows, and nothing goes back. */
  predicate Advances(w: World, w': World) {
    && w.stored <= w'.stored
    && (forall r :: r in w.log ==> r in w'.log && w'.log[r] == w.log[r])
    && (w.published.Some? ==> w'.published.Some?)
    && PublishedRevision(w.published) <= PublishedRevision(w'.published)
    && |w.nodes| <= |w'.nodes|
    && (forall i :: 0 <= i < |w.nodes| ==> w.nodes[i].applied <= w'.nodes[i].applied)
  }

  lemma FreshFits(rules: RuleSet)
    ensures Inv(Fresh(rules))
  {
  }

  lemma CommitKeeps(w: World, revision: nat, rules: RuleSet)
    requires Inv(w) && revision > w.stored
    ensures Inv(Next(w, Commit(revision, rules))) && Advances(w, Next(w, Commit(revision, rules)))
  {
  }

  lemma LandingKeeps(w: World, p: Published)
    requires Inv(w) && StorageKnows(w, p) && IsNewer(p.revision, w.published)
    ensures Inv(Landed(w, p)) && Advances(w, Landed(w, p))
  {
    var w' := Landed(w, p);
    forall i | 0 <= i < |w'.nodes| ensures NodeFits(w', w'.nodes[i]) {
      assert NodeFits(w, w.nodes[i]);
    }
    forall id | id in w'.publishers ensures PublisherFits(w', w'.publishers[id]) {
      assert PublisherFits(w, w.publishers[id]);
    }
  }

  lemma OtherPublishersKeep(w: World, publishers: map<nat, Publisher>)
    requires Inv(w) && forall id :: id in publishers ==> PublisherFits(w, publishers[id])
    ensures Inv(w.(publishers := publishers)) && Advances(w, w.(publishers := publishers))
  {
  }

  lemma PublishingKeeps(w: World, id: nat, a: PublishStep)
    requires Inv(w) && PublishEnabled(w, id, a)
    ensures Inv(PublishNext(w, id, a)) && Advances(w, PublishNext(w, id, a))
  {
    hide NodeFits;
    assert id in w.publishers ==> PublisherFits(w, w.publishers[id]);
    var w' := PublishNext(w, id, a);
    if w'.published != w.published {
      var gone := w.(publishers := w.publishers - {id});
      OtherPublishersKeep(w, gone.publishers);
      LandingKeeps(gone, w.publishers[id].held);
    } else {
      assert w' == w.(publishers := w'.publishers);
      OtherPublishersKeep(w, w'.publishers);
    }
  }

  predicate OfLine(a: NodeStep) {
    a.Deliver? || a.Lose? || a.Resubscribe? || a.CatchUp? || a.CatchUpFails?
  }

  lemma DeliveryKeeps(w: World, n: Node)
    requires w.stored in w.log
    requires forall r :: r in w.log ==> r <= w.stored
    requires w.published.Some? ==> StorageKnows(w, w.published.value)
    requires NodeFits(w, n) && NodeEnabled(w, n, Deliver)
    ensures NodeFits(w, NodeNext(w, n, Deliver))
  {
    hide StorageKnows;
    var next := NodeNext(w, n, Deliver);
    assert n.transit == [n.transit[0]] + n.transit[1..];
    assert n.transit[0] in n.transit && forall t :: t in next.transit ==> t in n.transit;
    assert HeardOf(w, next);
  }

  lemma LineStepKeeps(w: World, n: Node, a: NodeStep)
    requires w.stored in w.log
    requires forall r :: r in w.log ==> r <= w.stored
    requires w.published.Some? ==> StorageKnows(w, w.published.value)
    requires NodeFits(w, n) && NodeEnabled(w, n, a)
    requires OfLine(a)
    ensures NodeFits(w, NodeNext(w, n, a)) && n.applied <= NodeNext(w, n, a).applied
  {
    hide StorageKnows;
    if a.Deliver? {
      DeliveryKeeps(w, n);
    }
  }

  lemma StartStepKeeps(w: World, n: Node, a: NodeStep)
    requires w.stored in w.log
    requires forall r :: r in w.log ==> r <= w.stored
    requires w.published.Some? ==> StorageKnows(w, w.published.value)
    requires NodeFits(w, n) && NodeEnabled(w, n, a)
    requires !Following(n)
    ensures NodeFits(w, NodeNext(w, n, a)) && n.applied <= NodeNext(w, n, a).applied
  {
  }

  lemma ReloadStepKeeps(w: World, n: Node, a: NodeStep)
    requires w.stored in w.log
    requires forall r :: r in w.log ==> r <= w.stored
    requires w.published.Some? ==> StorageKnows(w, w.published.value)
    requires NodeFits(w, n) && NodeEnabled(w, n, a)
    requires Following(n) && !OfLine(a)
    ensures NodeFits(w, NodeNext(w, n, a)) && n.applied <= NodeNext(w, n, a).applied
  {
  }

  lemma NodeStepKeeps(w: World, n: Node, a: NodeStep)
    requires w.stored in w.log
    requires forall r :: r in w.log ==> r <= w.stored
    requires w.published.Some? ==> StorageKnows(w, w.published.value)
    requires NodeFits(w, n) && NodeEnabled(w, n, a)
    ensures NodeFits(w, NodeNext(w, n, a)) && n.applied <= NodeNext(w, n, a).applied
  {
    hide NodeFits, NodeNext;
    if OfLine(a) {
      LineStepKeeps(w, n, a);
    } else if Following(n) {
      ReloadStepKeeps(w, n, a);
    } else {
      StartStepKeeps(w, n, a);
    }
  }

  lemma AtNodeKeeps(w: World, at: nat, a: NodeStep)
    requires Inv(w) && at < |w.nodes| && NodeEnabled(w, w.nodes[at], a)
    ensures Inv(Next(w, AtNode(at, a))) && Advances(w, Next(w, AtNode(at, a)))
  {
    NodeStepKeeps(w, w.nodes[at], a);
    var w' := Next(w, AtNode(at, a));
    forall i | 0 <= i < |w'.nodes| ensures NodeFits(w', w'.nodes[i]) {
      assert NodeFits(w, w.nodes[i]);
      assert NodeFits(w, w'.nodes[i]);
    }
    forall id | id in w'.publishers ensures PublisherFits(w', w'.publishers[id]) {
      assert PublisherFits(w, w.publishers[id]);
    }
  }

  lemma BootKeeps(w: World)
    requires Inv(w)
    ensures Inv(Next(w, Boot)) && Advances(w, Next(w, Boot))
  {
  }

  lemma StepKeeps(w: World, a: Action)
    requires Inv(w) && Enabled(w, a)
    ensures Inv(Next(w, a)) && Advances(w, Next(w, a))
  {
    match a
    case Commit(revision, rules) => CommitKeeps(w, revision, rules);
    case Publishing(id, publish) => PublishingKeeps(w, id, publish);
    case Boot => BootKeeps(w);
    case AtNode(at, step) => AtNodeKeeps(w, at, step);
  }

  // ----- whole runs -----

  predicate Legal(w: World, run: seq<Action>)
    requires Inv(w)
    decreases run
  {
    run == [] || (Enabled(w, run[0]) && (StepKeeps(w, run[0]); Legal(Next(w, run[0]), run[1..])))
  }

  function After(w: World, run: seq<Action>): World
    requires Inv(w) && Legal(w, run)
    decreases run
  {
    if run == [] then w else (StepKeeps(w, run[0]); After(Next(w, run[0]), run[1..]))
  }

  lemma {:induction false} AfterOneMore(w: World, run: seq<Action>, a: Action)
    requires Inv(w) && Legal(w, run)
    requires Inv(After(w, run)) && Enabled(After(w, run), a)
    ensures Legal(w, run + [a])
    ensures After(w, run + [a]) == Next(After(w, run), a)
    decreases run
  {
    if run == [] {
      StepKeeps(w, a);
      assert run + [a] == [a];
    } else {
      StepKeeps(w, run[0]);
      assert (run + [a])[1..] == run[1..] + [a];
      AfterOneMore(Next(w, run[0]), run[1..], a);
    }
  }

  /** One more step of a run that is being put together. */
  lemma Then(w: World, run: seq<Action>, a: Action) returns (longer: seq<Action>)
    requires Inv(w) && Legal(w, run)
    requires Enabled(After(w, run), a)
    ensures longer == run + [a]
    ensures Legal(w, longer)
    ensures Inv(After(w, run)) && After(w, longer) == Next(After(w, run), a)
  {
    RunKeeps(w, run);
    AfterOneMore(w, run, a);
    longer := run + [a];
  }

  /** Whatever happens, the invariant stands and nothing goes back. */
  lemma {:induction false} RunKeeps(w: World, run: seq<Action>)
    requires Inv(w) && Legal(w, run)
    ensures Inv(After(w, run)) && Advances(w, After(w, run))
    decreases run
  {
    if run != [] {
      StepKeeps(w, run[0]);
      RunKeeps(Next(w, run[0]), run[1..]);
    }
  }

  /**
   Safety of the whole protocol. However a run from a fresh storage is cut in two, the published
   revision and every node's applied revision only rise from the cut to the end, what is
   published is exactly storage's set at its revision, and a node that has reloaded serves
   exactly storage's set at the revision it applied.
   */
  lemma PropagationIsSafe(rules: RuleSet, before: seq<Action>, after: seq<Action>)
    requires Inv(Fresh(rules)) && Legal(Fresh(rules), before)
    requires Inv(After(Fresh(rules), before)) && Legal(After(Fresh(rules), before), after)
    ensures
      var cut := After(Fresh(rules), before);
      var end := After(cut, after);
      && PublishedRevision(cut.published) <= PublishedRevision(end.published)
      && (end.published.Some? ==>
            var p := end.published.value;
            p.revision in end.log && p.rules == end.log[p.revision])
      && |cut.nodes| <= |end.nodes|
      && (forall i :: 0 <= i < |cut.nodes| ==> cut.nodes[i].applied <= end.nodes[i].applied)
      && (forall i :: 0 <= i < |end.nodes| && end.nodes[i].reloaded ==>
            end.nodes[i].applied in end.log && end.nodes[i].serving == end.log[end.nodes[i].applied])
  {
    var cut := After(Fresh(rules), before);
    RunKeeps(cut, after);
    var end := After(cut, after);
    forall i | 0 <= i < |end.nodes| && end.nodes[i].reloaded
      ensures end.nodes[i].applied in end.log && end.nodes[i].serving == end.log[end.nodes[i].applied]
    {
      assert NodeFits(end, end.nodes[i]);
    }
  }

  /** Once a node is up, only a reload that lands changes what it serves: a failed build never does. */
  lemma OnlyALandedReloadChangesServing(w: World, a: Action, i: nat)
    requires w.stored in w.log && Enabled(w, a) && i < |w.nodes|
    requires !Loading(w.nodes[i])
    requires a != AtNode(i, Apply)
    ensures
      var w' := Next(w, a);
      i < |w'.nodes| && w'.nodes[i].serving == w.nodes[i].serving && w'.nodes[i].applied == w.nodes[i].applied
  {
  }

  predicate Loading(n: Node) {
    n.phase.LoadingRoutes? || n.phase.LoadingRules? || n.phase.LoadingLimits?
  }

  /**
   No announcement is lost. Whenever a follower waits with nothing left to look at, everything
   announced to it since it began following is at or below what it serves, which is then
   storage's set at that revision.
   */
  lemma NoAnnouncementIsLost(w: World, run: seq<Action>, i: nat)
    requires Inv(w) && Legal(w, run)
    requires i < |After(w, run).nodes|
    requires
      var n := After(w, run).nodes[i];
      n.phase.Waiting? && !n.unseen && n.watch > n.first
    ensures
      var end := After(w, run);
      var n := end.nodes[i];
      && n.watch <= n.applied
      && (n.reloaded ==> n.applied in end.log && n.serving == end.log[n.applied])
  {
    RunKeeps(w, run);
    assert NodeFits(After(w, run), After(w, run).nodes[i]);
  }

  /** Where a publisher stands with what it means to publish. */
  predicate Carries(w: World, id: nat, p: Published) {
    && id in w.publishers
    && (w.publishers[id] == Holding(p) || (w.publishers[id].Comparing? && w.publishers[id].held == p))
  }

  /** A publish that is done and was not given up leaves something at least as new published. */
  lemma {:induction false} APublishLands(w: World, run: seq<Action>, id: nat, p: Published)
    requires Inv(w) && Legal(w, run) && Carries(w, id, p)
    requires forall a :: a in run ==> a != Publishing(id, Abort)
    requires !Carries(After(w, run), id, p)
    ensures
      var end := After(w, run);
      end.published.Some? && end.published.value.revision >= p.revision
    decreases run
  {
    if run != [] {
      StepKeeps(w, run[0]);
      assert run[0] in run;
      var w' := Next(w, run[0]);
      if Carries(w', id, p) {
        assert forall a :: a in run[1..] ==> a in run;
        APublishLands(w', run[1..], id, p);
      } else {
        assert PublisherFits(w, w.publishers[id]);
        assert w'.published.Some? && w'.published.value.revision >= p.revision;
        RunKeeps(w', run[1..]);
      }
    }
  }

  /** What a node has loaded at its start: each part storage's at some revision from the start on. */
  ghost predicate LoadedFrom(w: World, n: Node) {
    !n.reloaded ==>
      && (!n.phase.LoadingRoutes? ==>
            exists r :: r in w.log && n.startedAt <= r && n.serving.routes == w.log[r].routes)
      && (!n.phase.LoadingRoutes? && !n.phase.LoadingRules? ==>
            exists r :: r in w.log && n.startedAt <= r && n.serving.plugins == w.log[r].plugins)
      && (!Loading(n) ==>
            exists r :: r in w.log && n.startedAt <= r && n.serving.limits == w.log[r].limits)
  }

  lemma ANodeLoadsFromStorage(w: World, n: Node, a: NodeStep)
    requires w.stored in w.log && n.startedAt <= w.stored && NodeEnabled(w, n, a) && LoadedFrom(w, n)
    ensures LoadedFrom(w, NodeNext(w, n, a))
  {
    var n' := NodeNext(w, n, a);
    if !Loading(n) && !n'.reloaded {
      assert n'.serving == n.serving && n'.startedAt == n.startedAt && !n.reloaded && !Loading(n');
      hide NodeNext;
    }
  }

  lemma LoadedStays(w: World, w': World, n: Node)
    requires LoadedFrom(w, n) && forall r :: r in w.log ==> r in w'.log && w'.log[r] == w.log[r]
    ensures LoadedFrom(w', n)
  {
  }

  lemma HearingLoadsNothing(w: World, n: Node, revision: nat)
    requires LoadedFrom(w, n)
    ensures LoadedFrom(w, Hear(n, revision))
  {
  }

  /** Over every run, what a node serves before its first reload was storage's, part by part, since it started. */
  lemma {:induction false} EachPartIsStorages(w: World, run: seq<Action>)
    requires Inv(w) && Legal(w, run) && forall i :: 0 <= i < |w.nodes| ==> LoadedFrom(w, w.nodes[i])
    ensures forall i :: 0 <= i < |After(w, run).nodes| ==> LoadedFrom(After(w, run), After(w, run).nodes[i])
    decreases run
  {
    if run != [] {
      StepKeeps(w, run[0]);
      var w' := Next(w, run[0]);
      forall i | 0 <= i < |w'.nodes| ensures LoadedFrom(w', w'.nodes[i]) {
        OneNodesLoads(w, run[0], i);
      }
      EachPartIsStorages(w', run[1..]);
    }
  }

  lemma OneNodesLoads(w: World, a: Action, i: nat)
    requires Inv(w) && Enabled(w, a) && i < |Next(w, a).nodes|
    requires forall j :: 0 <= j < |w.nodes| ==> LoadedFrom(w, w.nodes[j])
    ensures LoadedFrom(Next(w, a), Next(w, a).nodes[i])
  {
    hide LoadedFrom;
    var w' := Next(w, a);
    StepKeeps(w, a);
    if i < |w.nodes| {
      assert NodeFits(w, w.nodes[i]);
      LoadedStays(w, w', w.nodes[i]);
      if a.AtNode? && a.at == i {
        ANodeLoadsFromStorage(w, w.nodes[i], a.step);
        LoadedStays(w, w', w'.nodes[i]);
      } else if w'.nodes[i] != w.nodes[i] {
        HearingLoadsNothing(w', w.nodes[i], w'.published.value.revision);
      }
    } else {
      AStartHasLoadedNothing(w);
    }
  }

  lemma AStartHasLoadedNothing(w: World)
    ensures forall w': World :: LoadedFrom(w', Starting(w))
  {
  }

  /** Landing sends the revision to every line that is up, behind what is on its way, and does no more to a node. */
  lemma ALandingIsAnnounced(w: World, p: Published, i: nat)
    requires i < |w.nodes|
    ensures
      var n, after := w.nodes[i], Landed(w, p).nodes[i];
      && |Landed(w, p).nodes| == |w.nodes|
      && (n.line in {On, CatchingUp} ==>
            !after.missed && after == n.(transit := after.transit, missed := false)
            && after.transit == n.transit + [p.revision])
      && (n.line in {Off, Lost} ==> after == n)
  {
  }

  /** Left alone, a publisher of the sled loop is done, whatever swaps it has lost, and lands exactly if newer. */
  lemma APublisherLeftAloneIsDone(w: World, id: nat, p: Published) returns (run: seq<Action>)
    requires Inv(w) && Carries(w, id, p)
    ensures Legal(w, run) && forall a :: a in run ==> a in {Publishing(id, Compare), Publishing(id, Swap)}
    ensures
      var end := After(w, run);
      && id !in end.publishers
      && end.published == if IsNewer(p.revision, w.published) then Some(p) else w.published
  {
    hide NodeFits;
    assert PublisherFits(w, w.publishers[id]);
    run := [];
    if w.publishers[id].Comparing? {
      run := Then(w, run, Publishing(id, Swap));
    }
    hide Legal, After;
    if id in After(w, run).publishers {
      run := Then(w, run, Publishing(id, Compare));
      if id in After(w, run).publishers {
        run := Then(w, run, Publishing(id, Swap));
      }
    }
  }

  // ----- what failing leaves -----

  /** A line that is lost takes what was on its way with it, and a catch-up that fails does not bring it back. */
  lemma AnAnnouncementIsLostWithItsLine(w: World, n: Node)
    requires w.stored in w.log && Following(n) && n.line.On?
    ensures
      var lost := NodeNext(w, n, Lose);
      NodeEnabled(w, lost, Resubscribe) &&
      var back := NodeNext(w, lost, Resubscribe);
      && NodeEnabled(w, back, CatchUpFails) && NodeEnabled(w, back, CatchUp)
      && NodeNext(w, back, CatchUpFails) == n.(transit := [], missed := true)
      && NodeNext(w, back, CatchUp).watch == Max(n.watch, PublishedRevision(w.published))
      && !NodeNext(w, back, CatchUp).missed
  {
  }

  /** A heal goes on to publish exactly when what is published is behind what storage held, and changes nothing else. */
  lemma AHealGoesOnExactlyWhenBehind(w: World, id: nat)
    requires Enabled(w, Publishing(id, HealCompares)) && w.stored in w.log
    ensures
      var w' := Next(w, Publishing(id, HealCompares));
      && w' == w.(publishers := w'.publishers)
      && (id in w'.publishers <==> IsNewer(w.publishers[id].stored, w.published))
      && (id in w'.publishers ==> w'.publishers[id] == Fetching)
  {
  }

  /** A publish may fail wherever it has got to, and leaves everything but itself as it was. */
  lemma AFailedPublishChangesNothing(w: World, id: nat)
    requires id in w.publishers && w.stored in w.log
    ensures Enabled(w, Publishing(id, Abort))
    ensures Next(w, Publishing(id, Abort)) == w.(publishers := w.publishers - {id})
  {
  }

  /** A reload may fail at either of its steps; it is tried again as if from the start, sooner when there is news. */
  lemma AFailedReloadIsTriedAgain(w: World, n: Node)
    requires w.stored in w.log && (n.phase.Reloading? || n.phase.Building?)
    ensures NodeEnabled(w, n, ReloadFails)
    ensures
      var failed := NodeNext(w, n, ReloadFails);
      && NodeEnabled(w, failed, Retry) && NodeNext(w, failed, Retry) == n.(phase := Reloading)
      && (NodeEnabled(w, failed, RetryOnChange) <==> n.unseen)
      && (n.unseen ==> NodeNext(w, failed, RetryOnChange) == n.(phase := Reloading, unseen := false))
      && NodeEnabled(w, NodeNext(w, failed, Retry), TakePublished)
  {
  }

  /** A node that cannot begin to follow gives up, and serves what it started with whatever happens after. */
  lemma ANodeThatGivesUpServesOn(w: World, i: nat, run: seq<Action>)
    requires Inv(w) && i < |w.nodes| && (w.nodes[i].phase.Booted? || w.nodes[i].phase.Subscribed?)
    ensures Enabled(w, AtNode(i, GiveUp))
    ensures
      var left := Next(w, AtNode(i, GiveUp));
      Inv(left) && (Legal(left, run) ==>
        && i < |After(left, run).nodes|
        && After(left, run).nodes[i] == w.nodes[i].(phase := Stopped, line := Off, transit := []))
  {
    hide Inv;
    StepKeeps(w, AtNode(i, GiveUp));
    var left := Next(w, AtNode(i, GiveUp));
    if Legal(left, run) {
      AStoppedNodeStays(left, run, i);
    }
  }

  lemma {:induction false} AStoppedNodeStays(w: World, run: seq<Action>, i: nat)
    requires Inv(w) && Legal(w, run) && i < |w.nodes| && w.nodes[i].phase.Stopped? && w.nodes[i].line.Off?
    ensures i < |After(w, run).nodes| && After(w, run).nodes[i] == w.nodes[i]
    decreases run
  {
    if run != [] {
      hide NodeFits;
      StepKeeps(w, run[0]);
      AStoppedNodeStays(Next(w, run[0]), run[1..], i);
    }
  }

  // ----- convergence, and the gap before following began -----

  /** A follower that waits with its line up, nothing to look at and nothing on its way. */
  predicate Still(n: Node) {
    n.phase.Waiting? && !n.unseen && n.line.On? && n.transit == []
  }

  /** A follower at rest: still, and without a failed catch-up behind it. */
  predicate AtRest(n: Node) {
    Still(n) && !n.missed
  }

  /** What was published as the node began to follow is newer than its start, and still the newest. */
  predicate StartGap(w: World, n: Node) {
    n.startedAt < n.first == PublishedRevision(w.published)
  }

  /** A catch-up failed, and what is published was neither announced to the node nor taken by it. */
  predicate CatchUpGap(w: World, n: Node) {
    n.missed && n.watch < PublishedRevision(w.published) && n.applied < PublishedRevision(w.published)
  }

  /** There are two ways for a still follower to be behind what is published, and no third. */
  lemma AStillFollowerIsBehindExactly(w: World, i: nat)
    requires Inv(w) && i < |w.nodes| && Still(w.nodes[i])
    ensures
      var n := w.nodes[i];
      n.applied < PublishedRevision(w.published) <==> StartGap(w, n) || CatchUpGap(w, n)
  {
    assert NodeFits(w, w.nodes[i]);
  }

  /**
   A follower at rest is up with what is published exactly when it started at or past what was
   published as it began to follow, or something was published since.
   */
  lemma AtRestIsUpToDateExactly(w: World, i: nat)
    requires Inv(w) && i < |w.nodes| && AtRest(w.nodes[i])
    ensures
      var n := w.nodes[i];
      PublishedRevision(w.published) <= n.applied <==>
      n.first <= n.startedAt || n.first < PublishedRevision(w.published)
  {
  }

  /** Outside that gap, a follower at rest under a healed cache serves exactly what storage holds. */
  lemma AtRestServesStorage(w: World, i: nat)
    requires Inv(w) && i < |w.nodes| && AtRest(w.nodes[i])
    requires PublishedRevision(w.published) == w.stored
    requires w.nodes[i].first <= w.nodes[i].startedAt || w.nodes[i].first < w.stored
    ensures w.nodes[i].applied == w.stored && w.nodes[i].serving == w.log[w.stored]
  {
  }

  /** A node that has read its first rules and does not follow yet. */
  function Up(serving: RuleSet): Node {
    Node(Booted, 0, 0, false, serving, 0, 0, false, Off, [], false)
  }

  lemma ANodeBoots(rules: RuleSet) returns (run: seq<Action>)
    ensures Inv(Fresh(rules)) && Legal(Fresh(rules), run)
    ensures After(Fresh(rules), run) ==
            Fresh(rules).(nodes := [Up(rules)])
  {
    var w := Fresh(rules);
    run := Then(w, [], Boot);
    run := Then(w, run, AtNode(0, LoadRoutes));
    run := Then(w, run, AtNode(0, LoadRules));
    run := Then(w, run, AtNode(0, LoadLimits));
  }

  /** A follower in the gap: it rests on an older revision than the one published. */
  predicate InTheGap(w: World, n: Node) {
    && n.phase.Waiting? && !n.unseen
    && n.watch == PublishedRevision(w.published) == w.stored
    && n.applied < n.watch
  }

  /** A change committed, published and landed while a node is up and not following counts as seen once it does. */
  lemma AChangeSlipsBy(old_: RuleSet, new_: RuleSet, serving: RuleSet, run: seq<Action>) returns (longer: seq<Action>)
    requires Inv(Fresh(old_)) && Legal(Fresh(old_), run)
    requires After(Fresh(old_), run) == World(1, map[0 := old_, 1 := new_], None, map[], [Up(serving)])
    ensures Legal(Fresh(old_), longer)
    ensures
      var w := After(Fresh(old_), longer);
      && |w.nodes| == 1 && AtRest(w.nodes[0]) && InTheGap(w, w.nodes[0]) && w.nodes[0].serving == serving
      && w.nodes[0].applied == 0
      && w.published == Some(Published(1, new_)) && w.stored == 1 && w.log == map[0 := old_, 1 := new_]
  {
    hide Inv, Legal, After;
    var w := Fresh(old_);
    longer := Then(w, run, Publishing(0, StartPublish));
    longer := Then(w, longer, Publishing(0, Fetch));
    longer := Then(w, longer, Publishing(0, Land));
    assert After(w, longer).nodes == [Up(serving)];
    longer := Then(w, longer, AtNode(0, Subscribe));
    longer := Then(w, longer, AtNode(0, ReadFirst));
  }

  /**
   The gap is real. A change published after a node read its first rules and before it began to
   follow counts as seen, so the node rests on the old rules while the cache is fully healed.
   */
  lemma TheGapIsReachable(old_: RuleSet, new_: RuleSet) returns (run: seq<Action>)
    ensures Inv(Fresh(old_)) && Legal(Fresh(old_), run)
    ensures
      var w := After(Fresh(old_), run);
      && |w.nodes| == 1 && AtRest(w.nodes[0]) && InTheGap(w, w.nodes[0])
      && w.published == Some(Published(1, new_)) && w.stored == 1 && 1 in w.log && w.log[1] == new_
      && w.nodes[0].applied == 0 && w.nodes[0].serving == old_
  {
    hide Legal, After;
    run := ANodeBoots(old_);
    run := Then(Fresh(old_), run, Commit(1, new_));
    run := AChangeSlipsBy(old_, new_, old_, run);
  }

  /**
   And it can be worse: a change that lands between the reads of a start leaves a node at rest on
   the routes of one revision with the plugins and limits of the next, a set storage never held.
   */
  lemma ATornStartIsReachable(old_: RuleSet, new_: RuleSet) returns (run: seq<Action>)
    requires old_.routes != new_.routes && (old_.plugins != new_.plugins || old_.limits != new_.limits)
    ensures Inv(Fresh(old_)) && Legal(Fresh(old_), run)
    ensures
      var w := After(Fresh(old_), run);
      && |w.nodes| == 1 && AtRest(w.nodes[0]) && InTheGap(w, w.nodes[0])
      && w.nodes[0].serving == RuleSet(old_.routes, new_.plugins, new_.limits)
      && forall r :: r in w.log ==> w.log[r] != w.nodes[0].serving
  {
    var w := Fresh(old_);
    run := Then(w, [], Boot);
    hide Legal, After;
    run := Then(w, run, AtNode(0, LoadRoutes));
    run := Then(w, run, Commit(1, new_));
    run := Then(w, run, AtNode(0, LoadRules));
    run := Then(w, run, AtNode(0, LoadLimits));
    run := AChangeSlipsBy(old_, new_, RuleSet(old_.routes, new_.plugins, new_.limits), run);
  }

  /** And it lasts: until storage changes again, nothing that can happen, healing included, wakes the node. */
  lemma {:induction false} TheGapLasts(w: World, run: seq<Action>, i: nat)
    requires Inv(w) && Legal(w, run)
    requires w.published.Some?
    requires i < |w.nodes| && InTheGap(w, w.nodes[i])
    requires forall a :: a in run ==> !a.Commit?
    ensures
      var end := After(w, run);
      && i < |end.nodes| && InTheGap(end, end.nodes[i])
      && end.nodes[i].serving == w.nodes[i].serving && end.nodes[i].applied == w.nodes[i].applied
    decreases run
  {
    if run != [] {
      hide StorageKnows, LoadedSoFar;
      StepKeeps(w, run[0]);
      assert NodeFits(w, w.nodes[i]);
      assert run[0] in run;
      var w' := Next(w, run[0]);
      if run[0].Publishing? {
        assert run[0].id in w.publishers ==> PublisherFits(w, w.publishers[run[0].id]);
      } else if run[0] == AtNode(i, Deliver) {
        assert w.nodes[i].transit[0] in w.nodes[i].transit;
      }
      assert InTheGap(w', w'.nodes[i]);
      TheGapLasts(w', run[1..], i);
    }
  }

  /** A node that followed a cache with nothing in it, and has lost its line. */
  function CutOff(serving: RuleSet): Node {
    Node(Waiting, 0, 0, false, serving, 0, 0, false, Lost, [], false)
  }

  lemma ALineIsLost(old_: RuleSet, new_: RuleSet) returns (run: seq<Action>)
    ensures Inv(Fresh(old_)) && Legal(Fresh(old_), run)
    ensures After(Fresh(old_), run) == World(1, map[0 := old_, 1 := new_], None, map[], [CutOff(old_)])
  {
    hide Inv, Legal, After;
    var w := Fresh(old_);
    run := ANodeBoots(old_);
    run := Then(w, run, AtNode(0, Subscribe));
    run := Then(w, run, AtNode(0, ReadFirst));
    run := Then(w, run, AtNode(0, Lose));
    run := Then(w, run, Commit(1, new_));
  }

  /**
   The other gap is real. A change lands while a node's line is lost, and the one read that would
   tell it of it, on resubscribing, fails: the node is still, outside the first gap, and serves the
   old rules under a healed cache.
   */
  lemma AFailedCatchUpIsReachable(old_: RuleSet, new_: RuleSet) returns (run: seq<Action>)
    ensures Inv(Fresh(old_)) && Legal(Fresh(old_), run)
    ensures
      var w := After(Fresh(old_), run);
      && |w.nodes| == 1 && Still(w.nodes[0]) && CatchUpGap(w, w.nodes[0]) && !StartGap(w, w.nodes[0])
      && w.nodes[0].serving == old_
      && w.published == Some(Published(1, new_)) && w.stored == 1 && 1 in w.log && w.log[1] == new_
  {
    hide Inv, Legal, After;
    var w := Fresh(old_);
    run := ALineIsLost(old_, new_);
    run := Then(w, run, Publishing(0, StartPublish));
    run := Then(w, run, Publishing(0, Fetch));
    run := Then(w, run, Publishing(0, Land));
    assert After(w, run).nodes == [CutOff(old_)];
    run := Then(w, run, AtNode(0, Resubscribe));
    run := Then(w, run, AtNode(0, CatchUpFails));
  }

  /** And it lasts: until storage changes or that line is lost again, nothing, healing included, wakes the node. */
  lemma {:induction false} AFailedCatchUpLasts(w: World, run: seq<Action>, i: nat)
    requires Inv(w) && Legal(w, run)
    requires i < |w.nodes| && Still(w.nodes[i]) && CatchUpGap(w, w.nodes[i])
    requires PublishedRevision(w.published) == w.stored
    requires forall a :: a in run ==> !a.Commit? && a != AtNode(i, Lose)
    ensures i < |After(w, run).nodes| && After(w, run).nodes[i] == w.nodes[i]
    decreases run
  {
    if run != [] {
      hide NodeFits;
      StepKeeps(w, run[0]);
      assert run[0] in run;
      var w' := Next(w, run[0]);
      if run[0].Publishing? {
        assert run[0].id in w.publishers ==> PublisherFits(w, w.publishers[run[0].id]);
      }
      assert w'.nodes[i] == w.nodes[i] && w'.published == w.published && w'.stored == w.stored;
      AFailedCatchUpLasts(w', run[1..], i);
    }
  }

  // ----- how fast a quiet system settles -----

  /** How far the cache is behind storage, an empty one furthest. */
  function CacheLag(w: World): nat
    requires Inv(w)
  {
    if w.published.None? then w.stored + 1 else w.stored - w.published.value.revision
  }

  function NodesLag(stored: nat, nodes: seq<Node>): nat {
    if nodes == [] then 0
    else Max(0, stored - nodes[0].applied) + NodesLag(stored, nodes[1..])
  }

  /** How far everything together is behind storage. */
  function Lag(w: World): nat
    requires Inv(w)
  {
    CacheLag(w) + NodesLag(w.stored, w.nodes)
  }

  lemma {:induction false} NodesLagFollowsApplied(stored: nat, nodes: seq<Node>, nodes': seq<Node>)
    requires |nodes| == |nodes'|
    requires forall i :: 0 <= i < |nodes| ==> nodes[i].applied <= nodes'[i].applied
    ensures NodesLag(stored, nodes') <= NodesLag(stored, nodes)
    ensures (exists i :: 0 <= i < |nodes| && nodes[i].applied < nodes'[i].applied <= stored) ==>
              NodesLag(stored, nodes') < NodesLag(stored, nodes)
  {
    if nodes != [] {
      assert forall i :: 0 <= i < |nodes[1..]| ==> nodes[1..][i] == nodes[i + 1] && nodes'[1..][i] == nodes'[i + 1];
      NodesLagFollowsApplied(stored, nodes[1..], nodes'[1..]);
      if i :| 0 <= i < |nodes| && nodes[i].applied < nodes'[i].applied <= stored {
        if i > 0 {
          assert nodes[1..][i - 1].applied < nodes'[1..][i - 1].applied <= stored;
        }
      }
    }
  }

  /** Whether a step put something newer in place: in the cache, or in force at a node. */
  predicate MovesOn(w: World, a: Action)
    requires Inv(w) && Enabled(w, a)
  {
    Next(w, a).published != w.published || (a.AtNode? && a.step.Apply?)
  }

  /** While storage is quiet no step raises the lag, and every publish or reload that lands lowers it. */
  lemma QuietStepsLowerTheLag(w: World, a: Action)
    requires Inv(w) && Enabled(w, a) && !a.Commit? && !a.Boot?
    ensures Inv(Next(w, a))
    ensures Lag(Next(w, a)) <= Lag(w) - (if MovesOn(w, a) then 1 else 0)
  {
    hide NodesLag;
    StepKeeps(w, a);
    var w' := Next(w, a);
    NodesLagFollowsApplied(w.stored, w.nodes, w'.nodes);
    if a.AtNode? {
      assert NodeFits(w, w.nodes[a.at]);
      if a.step.Apply? {
        assert w.nodes[a.at].applied < w'.nodes[a.at].applied <= w.stored;
      }
    } else {
      assert a.id in w.publishers ==> PublisherFits(w, w.publishers[a.id]);
    }
  }

  /** How many publishes and reloads land in a run. */
  function Landings(w: World, run: seq<Action>): nat
    requires Inv(w) && Legal(w, run)
    decreases run
  {
    if run == [] then 0
    else
      StepKeeps(w, run[0]);
      (if MovesOn(w, run[0]) then 1 else 0) + Landings(Next(w, run[0]), run[1..])
  }

  /** So a quiet system settles: the lag pays for every landing, and no run holds more of them than that. */
  lemma {:induction false} QuietRunsSettle(w: World, run: seq<Action>)
    requires Inv(w) && Legal(w, run)
    requires forall a :: a in run ==> !a.Commit? && !a.Boot?
    ensures Inv(After(w, run))
    ensures Landings(w, run) + Lag(After(w, run)) <= Lag(w)
    decreases run
  {
    if run != [] {
      assert run[0] in run;
      QuietStepsLowerTheLag(w, run[0]);
      QuietRunsSettle(Next(w, run[0]), run[1..]);
    }
  }

  /** A cache that is behind can always be healed, by script or by swap, to exactly what storage holds. */
  lemma HealingLands(w: World, id: nat) returns (scripted: seq<Action>, swapped: seq<Action>)
    requires Inv(w) && id !in w.publishers
    requires w.published.None? || w.published.value.revision < w.stored
    ensures
      var fetched := [Publishing(id, StartHeal), Publishing(id, HealCompares), Publishing(id, Fetch)];
      && scripted == fetched + [Publishing(id, Land)]
      && swapped == fetched + [Publishing(id, Compare), Publishing(id, Swap)]
    ensures Legal(w, scripted) && After(w, scripted).published == Some(Published(w.stored, w.log[w.stored]))
    ensures Legal(w, swapped) && After(w, swapped).published == Some(Published(w.stored, w.log[w.stored]))
  {
    hide NodeFits;
    var run := Then(w, [], Publishing(id, StartHeal));
    run := Then(w, run, Publishing(id, HealCompares));
    run := Then(w, run, Publishing(id, Fetch));
    scripted := Then(w, run, Publishing(id, Land));
    swapped := Then(w, run, Publishing(id, Compare));
    swapped := Then(w, swapped, Publishing(id, Swap));
  }

  /** A node with an announcement to look at can always catch up, to exactly what is published. */
  lemma AWokenNodeCatchesUp(w: World, i: nat) returns (run: seq<Action>)
    requires Inv(w) && i < |w.nodes|
    requires w.nodes[i].phase.Waiting? && w.nodes[i].unseen && w.nodes[i].applied < w.nodes[i].watch
    ensures run == [AtNode(i, Wake), AtNode(i, TakePublished), AtNode(i, Apply)]
    ensures Legal(w, run)
    ensures w.published.Some?
    ensures
      var end := After(w, run);
      && i < |end.nodes| && end.nodes[i].applied == w.published.value.revision
      && end.nodes[i].serving == w.published.value.rules
  {
    assert NodeFits(w, w.nodes[i]);
    run := Then(w, [], AtNode(i, Wake));
    run := Then(w, run, AtNode(i, TakePublished));
    run := Then(w, run, AtNode(i, Apply));
  }

  /** Steps of one node alone, its line staying up once it is. */
  predicate OwnSteps(run: seq<Action>, i: nat) {
    forall a :: a in run ==> a.AtNode? && a.at == i && !a.step.Lose?
  }

  /** A follower whose catch-up failed and to which nothing published is on its way. */
  predicate Deaf(w: World, n: Node) {
    && n.line.On? && n.missed && n.watch < PublishedRevision(w.published)
    && PublishedRevision(w.published) !in n.transit
  }

  /** A follower that will read the publication whether it hears of it or not. */
  predicate WillReload(n: Node) {
    n.phase.Reloading? || n.phase.Retrying? || (n.phase.Waiting? && n.unseen && n.applied < n.watch)
  }

  /** A follower on its way to what is published, nothing else in the world having changed. */
  ghost predicate Underway(w: World, run: seq<Action>, i: nat)
    requires Inv(w)
  {
    && Legal(w, run) && OwnSteps(run, i) && i < |w.nodes|
    && var e := After(w, run);
       && Inv(e) && e.published == w.published && i < |e.nodes|
       && Following(e.nodes[i]) && !StartGap(e, e.nodes[i])
       && e.nodes[i].applied <= PublishedRevision(w.published)
  }

  ghost predicate Arrived(w: World, run: seq<Action>, i: nat)
    requires Inv(w) && Underway(w, run, i)
  {
    && w.published.Some?
    && After(w, run).nodes[i].applied == w.published.value.revision
    && After(w, run).nodes[i].serving == w.published.value.rules
  }

  lemma AFollowerFollowsOn(w: World, n: Node, step: NodeStep)
    requires w.stored in w.log && NodeFits(w, n) && Following(n)
    requires NodeEnabled(w, n, step) && n.applied <= PublishedRevision(w.published)
    ensures
      var next := NodeNext(w, n, step);
      && Following(next) && next.first == n.first && next.startedAt == n.startedAt
      && next.applied <= PublishedRevision(w.published)
  {
    hide ServesWhatItApplied, WatchFits, HeardOf;
  }

  lemma OnItsOwn(w: World, run: seq<Action>, i: nat, step: NodeStep) returns (longer: seq<Action>)
    requires Inv(w) && Underway(w, run, i)
    requires NodeEnabled(After(w, run), After(w, run).nodes[i], step) && !step.Lose?
    ensures longer == run + [AtNode(i, step)] && Underway(w, longer, i)
    ensures After(w, longer).nodes[i] == NodeNext(After(w, run), After(w, run).nodes[i], step)
  {
    hide Legal, After, NodeNext, NodeFits, NodeEnabled, Following;
    var e := After(w, run);
    longer := Then(w, run, AtNode(i, step));
    StepKeeps(e, AtNode(i, step));
    AFollowerFollowsOn(e, e.nodes[i], step);
  }

  lemma AReloadingFollowerArrives(w: World, run: seq<Action>, i: nat) returns (longer: seq<Action>)
    requires Inv(w) && Underway(w, run, i) && w.published.Some? && After(w, run).nodes[i].phase.Reloading?
    ensures Underway(w, longer, i) && Arrived(w, longer, i)
  {
    hide Inv, Legal, After, OwnSteps;
    longer := OnItsOwn(w, run, i, TakePublished);
    longer := OnItsOwn(w, longer, i, Apply);
  }

  /** One that has heard of what is published, or will reload without having heard of it, gets there. */
  lemma AnInformedFollowerArrives(w: World, run: seq<Action>, i: nat) returns (longer: seq<Action>)
    requires Inv(w) && Underway(w, run, i) && w.published.Some?
    requires
      var n := After(w, run).nodes[i];
      n.applied < w.published.value.revision && (n.watch == w.published.value.revision || WillReload(n))
    ensures Underway(w, longer, i) && Arrived(w, longer, i)
  {
    hide Legal, After, OwnSteps;
    longer := run;
    assert NodeFits(After(w, run), After(w, run).nodes[i]);
    if After(w, longer).nodes[i].phase.Building? {
      longer := OnItsOwn(w, longer, i, Apply);
      assert NodeFits(After(w, longer), After(w, longer).nodes[i]);
    }
    if After(w, longer).nodes[i].applied < w.published.value.revision {
      hide NodeFits, Inv;
      if After(w, longer).nodes[i].phase.Waiting? {
        longer := OnItsOwn(w, longer, i, Wake);
      } else if After(w, longer).nodes[i].phase.Retrying? {
        longer := OnItsOwn(w, longer, i, Retry);
      }
      longer := AReloadingFollowerArrives(w, longer, i);
    }
  }

  /** Taking in what is on its way brings a follower to the announcement of what is published. */
  lemma {:induction false} AFollowerHears(w: World, run: seq<Action>, i: nat) returns (longer: seq<Action>)
    requires Inv(w) && Underway(w, run, i)
    requires
      var n := After(w, run).nodes[i];
      var now := PublishedRevision(w.published);
      n.line.On? && n.applied < now && (n.watch == now || now in n.transit)
    ensures Underway(w, longer, i)
    ensures
      var n := After(w, longer).nodes[i];
      n.watch == PublishedRevision(w.published) && n.applied == After(w, run).nodes[i].applied
    decreases |After(w, run).nodes[i].transit|
  {
    hide Legal, After, OwnSteps;
    longer := run;
    var n := After(w, run).nodes[i];
    if n.watch != PublishedRevision(w.published) {
      assert NodeFits(After(w, run), n);
      assert n.transit == [n.transit[0]] + n.transit[1..];
      longer := OnItsOwn(w, run, i, Deliver);
      longer := AFollowerHears(w, longer, i);
    }
  }

  /**
   Every follower that is behind and outside the two gaps, whatever it is in the middle of, can
   come to exactly what is published by steps of its own.
   */
  lemma AFollowerCatchesUp(w: World, i: nat) returns (run: seq<Action>)
    requires Inv(w) && i < |w.nodes| && Following(w.nodes[i]) && w.published.Some?
    requires w.nodes[i].applied < w.published.value.revision
    requires !StartGap(w, w.nodes[i]) && (Deaf(w, w.nodes[i]) ==> WillReload(w.nodes[i]))
    ensures Legal(w, run) && OwnSteps(run, i)
    ensures
      var end := After(w, run);
      && i < |end.nodes| && end.published == w.published
      && end.nodes[i].applied == w.published.value.revision && end.nodes[i].serving == w.published.value.rules
  {
    run := [];
    assert Underway(w, run, i);
    assert NodeFits(w, w.nodes[i]);
    hide Legal, After, OwnSteps;
    if !WillReload(w.nodes[i]) {
      if w.nodes[i].line.Lost? {
        run := OnItsOwn(w, run, i, Resubscribe);
      }
      if After(w, run).nodes[i].line.CatchingUp? {
        run := OnItsOwn(w, run, i, CatchUp);
        assert NodeFits(After(w, run), After(w, run).nodes[i]);
      }
      run := AFollowerHears(w, run, i);
    }
    run := AnInformedFollowerArrives(w, run, i);
  }

  // ----- coming to rest -----

  /** A follower that has taken steps of its own and nothing else, its line up once it was. */
  ghost predicate Alone(w: World, run: seq<Action>, i: nat)
    requires Inv(w)
  {
    && Legal(w, run) && OwnSteps(run, i) && i < |w.nodes|
    && var e := After(w, run);
       Inv(e) && e.published == w.published && i < |e.nodes| && Following(e.nodes[i])
  }

  lemma AloneOnceMore(w: World, run: seq<Action>, i: nat, step: NodeStep) returns (longer: seq<Action>)
    requires Inv(w) && Alone(w, run, i)
    requires NodeEnabled(After(w, run), After(w, run).nodes[i], step) && !step.Lose?
    ensures Alone(w, longer, i)
    ensures After(w, longer).nodes[i] == NodeNext(After(w, run), After(w, run).nodes[i], step)
  {
    hide Legal, After, NodeFits;
    longer := Then(w, run, AtNode(i, step));
    StepKeeps(After(w, run), AtNode(i, step));
  }

  lemma {:induction false} AFollowerTakesAllIn(w: World, run: seq<Action>, i: nat) returns (longer: seq<Action>)
    requires Inv(w) && Alone(w, run, i) && After(w, run).nodes[i].line.On?
    ensures Alone(w, longer, i)
    ensures
      var n, end := After(w, run).nodes[i], After(w, longer).nodes[i];
      end.line.On? && end.transit == [] && end.missed == n.missed && end.phase == n.phase
    decreases |After(w, run).nodes[i].transit|
  {
    hide Legal, After, OwnSteps, Inv;
    longer := run;
    if After(w, run).nodes[i].transit != [] {
      longer := AloneOnceMore(w, run, i, Deliver);
      longer := AFollowerTakesAllIn(w, longer, i);
    }
  }

  lemma AReloadIsOver(w: World, run: seq<Action>, i: nat) returns (longer: seq<Action>)
    requires Inv(w) && Alone(w, run, i)
    ensures Alone(w, longer, i)
    ensures
      var n, end := After(w, run).nodes[i], After(w, longer).nodes[i];
      && end.phase.Waiting? && end.line == n.line && end.transit == n.transit && end.missed == n.missed
      && end.unseen == n.unseen && (n.phase.Waiting? ==> end == n)
  {
    hide Legal, After, OwnSteps, Inv;
    longer := run;
    if After(w, longer).nodes[i].phase.Retrying? {
      longer := AloneOnceMore(w, longer, i, Retry);
    }
    if After(w, longer).nodes[i].phase.Reloading? {
      longer := AloneOnceMore(w, longer, i, TakePublished);
    }
    if After(w, longer).nodes[i].phase.Building? {
      longer := AloneOnceMore(w, longer, i, Apply);
    }
  }

  lemma ALineComesUp(w: World, i: nat) returns (run: seq<Action>)
    requires Inv(w) && i < |w.nodes| && Following(w.nodes[i])
    ensures Alone(w, run, i)
    ensures
      var n, end := w.nodes[i], After(w, run).nodes[i];
      end.line.On? && (end.missed ==> n.line.On? && n.missed)
  {
    run := [];
    assert Alone(w, run, i) && NodeFits(w, w.nodes[i]);
    hide Legal, After, OwnSteps, Inv, NodeFits;
    if w.nodes[i].line.Lost? {
      run := AloneOnceMore(w, run, i, Resubscribe);
    }
    if After(w, run).nodes[i].line.CatchingUp? {
      run := AloneOnceMore(w, run, i, CatchUp);
    }
  }

  /**
   Every follower, whatever it is in the middle of, can come to be still by steps of its own; one whose
   line was down, or had no failed catch-up behind it, comes to rest.
   */
  lemma AFollowerComesToRest(w: World, i: nat) returns (run: seq<Action>)
    requires Inv(w) && i < |w.nodes| && Following(w.nodes[i])
    ensures Legal(w, run) && OwnSteps(run, i)
    ensures i < |After(w, run).nodes| && After(w, run).published == w.published
    ensures Still(After(w, run).nodes[i])
    ensures !w.nodes[i].line.On? || !w.nodes[i].missed ==> AtRest(After(w, run).nodes[i])
  {
    run := ALineComesUp(w, i);
    hide Legal, After, OwnSteps, Inv;
    run := AFollowerTakesAllIn(w, run, i);
    run := AReloadIsOver(w, run, i);
    if After(w, run).nodes[i].unseen {
      run := AloneOnceMore(w, run, i, Wake);
      run := AReloadIsOver(w, run, i);
    }
  }
}
