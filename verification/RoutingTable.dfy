/**
 The routing table: rules from the configuration and from storage, grouped by the part of their
 key that matches exactly, and searched for the longest path that claims a request.
 */
module RoutingTable {
  import opened Common
  import opened Texts

  const PATH_MAX_BYTES: nat := 2048

  predicate IsPathChar(c: char) {
    '!' <= c <= '~' && c != '?' && c != '#'
  }

  /** Whether a text is an absolute path that carries no query or fragment. */
  predicate IsPath(s: string) {
    && 0 < |s| <= PATH_MAX_BYTES && s[0] == '/'
    && forall i :: 0 <= i < |s| ==> IsPathChar(s[i])
  }

  type Path = s: string | IsPath(s) witness "/"

  const RESERVED: string := "/_ip"

  /** Whether a path is the reserved prefix or continues it at a segment boundary. */
  predicate IsReserved(path: Path) {
    RESERVED <= path && (|path| == |RESERVED| || path[|RESERVED|] == '/')
  }

  datatype Protocol = Http | Https | Ws | Wss | Tcp

  datatype Endpoint = Endpoint(protocol: Protocol, host: string, port: nat, path: Path)

  /** What a table is keyed by: rules of different authorities never compete. */
  datatype Authority = Authority(protocol: Protocol, host: string, port: nat)

  datatype Weighted = Weighted(endpoint: Endpoint, weight: nat)

  datatype Strategy = RoundRobin | LeastLoad | Ratio

  datatype Rule = Rule(api: string, key: Endpoint, target: seq<Weighted>, strategy: Strategy)

  datatype Resolution = Resolution(rule: Rule, targets: seq<Weighted>)

  datatype RouteError = ReservedPath(path: Path)

  type Table = map<Authority, seq<Rule>>

  function AuthorityOf(e: Endpoint): Authority {
    Authority(e.protocol, e.host, e.port)
  }

  // ----- what a rule claims -----

  /** A text without the slash it may end in. */
  function WithoutSlash(s: string): string {
    if s != [] && s[|s| - 1] == '/' then s[..|s| - 1] else s
  }

  /** What is left of a requested path behind a rule's, where the rule's ends at a segment boundary of it. */
  function RemainderOf(rule: string, requested: string): Option<string> {
    if rule == "/" then Some(requested)
    else
      var r := WithoutSlash(rule);
      if requested == r then Some("")
      else if r <= requested && |r| < |requested| && requested[|r|] == '/' then Some(requested[|r|..])
      else None
  }

  /** The target's path with the unclaimed remainder appended. */
  function Join(target: string, remainder: string): string {
    if remainder == [] then target else WithoutSlash(target) + remainder
  }

  /** The segments a rule's path names, a slash it ends in naming none. */
  function Segments(rule: string): seq<string>
    requires rule != []
  {
    if rule == "/" then [] else Cut('/', WithoutSlash(rule))
  }

  /** A rule claims exactly the paths whose segments begin with its own: never half a segment. */
  lemma ClaimsAreWholeSegments(rule: Path, requested: Path)
    ensures RemainderOf(rule, requested).Some? <==> Segments(rule) <= Cut('/', requested)
  {
    hide Cut;
    if rule != "/" {
      var r := WithoutSlash(rule);
      PiecesBegin('/', r, requested);
      assert r + ['/'] <= requested <==> r <= requested && |r| < |requested| && requested[|r|] == '/';
    }
  }

  /** No two paths of one length claim the same request. */
  lemma EqualLengthClaimsAreEqual(a: Path, b: Path, requested: Path)
    requires |a| == |b|
    requires RemainderOf(a, requested).Some? && RemainderOf(b, requested).Some?
    ensures a == b
  {
  }

  /** A joined path is a path exactly while it is not too long. */
  lemma AJoinedPathIsAPathExactly(target: Path, rule: Path, requested: Path)
    requires RemainderOf(rule, requested).Some?
    ensures
      var joined := Join(target, RemainderOf(rule, requested).value);
      IsPath(joined) <==> |joined| <= PATH_MAX_BYTES
  {
  }

  /** The texts that are paths: a slash, and up to 2048 graphic characters but `?` and `#` in all. */
  lemma PathsThatAre(s: string)
    ensures IsPath(s) <==>
            && s != "" && s[0] == '/' && |s| < 2049
            && forall c :: c in s ==> ' ' < c < '\U{7F}' && c !in "?#"
  {
    if IsPath(s) {
      assert forall c :: c in s ==> IsPathChar(c);
    } else if s != "" && forall c :: c in s ==> ' ' < c < '\U{7F}' && c !in "?#" {
      forall i | 0 <= i < |s| ensures IsPathChar(s[i]) {
        assert s[i] in s;
      }
    }
  }

  /** The gateway's own paths are those whose first segment is `_ip`. */
  lemma ReservedPathsAreASegment(path: Path)
    ensures IsReserved(path) <==> ["", "_ip"] <= Cut('/', path)
  {
    CutAtFirst('/', "", "_ip");
    CutNowhere('/', "_ip");
    assert RESERVED == "" + ['/'] + "_ip";
    assert Cut('/', RESERVED) == ["", "_ip"];
    hide Cut;
    PiecesBegin('/', RESERVED, path);
    assert RESERVED + ['/'] <= path <==> RESERVED <= path && |path| > |RESERVED| && path[|RESERVED|] == '/';
  }

  // ----- which rules are in force -----

  predicate Keyed(rules: seq<Rule>, key: Endpoint) {
    exists i :: 0 <= i < |rules| && rules[i].key == key
  }

  /** The configured rules, then each stored one whose key nothing before it claims. */
  function Effective(configured: seq<Rule>, stored: seq<Rule>): seq<Rule> {
    if stored == [] then configured
    else
      var before := Effective(configured, stored[..|stored| - 1]);
      var rule := stored[|stored| - 1];
      if Keyed(before, rule.key) then before else before + [rule]
  }

  predicate DistinctKeys(rules: seq<Rule>) {
    forall i, j :: 0 <= i < j < |rules| ==> rules[i].key != rules[j].key
  }

  /** Config wins: a stored rule is in force exactly when no configured rule has its key. */
  lemma {:induction false} ConfigWins(configured: seq<Rule>, stored: seq<Rule>)
    requires DistinctKeys(stored)
    ensures forall r :: r in Effective(configured, stored) <==>
              r in configured || (r in stored && !Keyed(configured, r.key))
    ensures DistinctKeys(configured) ==> DistinctKeys(Effective(configured, stored))
    decreases |stored|
  {
    if stored != [] {
      var n := |stored| - 1;
      var fewer, rule := stored[..n], stored[n];
      assert stored == fewer + [rule];
      ConfigWins(configured, fewer);
      var before := Effective(configured, fewer);
      if Keyed(before, rule.key) {
        var i :| 0 <= i < |before| && before[i].key == rule.key;
        assert before[i] in before;
        assert Keyed(configured, rule.key);
      }
    }
  }

  // ----- the table -----

  function OfAuthority(rules: seq<Rule>, authority: Authority): seq<Rule> {
    if rules == [] then []
    else
      var before := OfAuthority(rules[..|rules| - 1], authority);
      var rule := rules[|rules| - 1];
      if AuthorityOf(rule.key) == authority then before + [rule] else before
  }

  lemma {:induction false} OfAuthorityHolds(rules: seq<Rule>, authority: Authority)
    ensures forall r :: r in OfAuthority(rules, authority) <==> r in rules && AuthorityOf(r.key) == authority
    decreases |rules|
  {
    if rules != [] {
      var n := |rules| - 1;
      OfAuthorityHolds(rules[..n], authority);
      assert rules == rules[..n] + [rules[n]];
    }
  }

  predicate LongestFirst(rules: seq<Rule>) {
    forall i, j :: 0 <= i < j < |rules| ==> |rules[i].key.path| >= |rules[j].key.path|
  }

  /** Puts a rule behind every one that is at least as long, which keeps the order of equals. */
  function Insert(sorted: seq<Rule>, rule: Rule): (r: seq<Rule>)
    ensures multiset(r) == multiset(sorted) + multiset{rule}
  {
    if sorted == [] then [rule]
    else
      var n := |sorted| - 1;
      assert sorted == sorted[..n] + [sorted[n]];
      if |sorted[n].key.path| >= |rule.key.path| then sorted + [rule]
      else Insert(sorted[..n], rule) + [sorted[n]]
  }

  lemma {:induction false} InsertingKeepsTheOrder(sorted: seq<Rule>, rule: Rule)
    requires LongestFirst(sorted)
    ensures LongestFirst(Insert(sorted, rule))
    decreases |sorted|
  {
    if sorted != [] {
      var n := |sorted| - 1;
      InsertingKeepsTheOrder(sorted[..n], rule);
      InsertedAreOld(sorted[..n], rule, Insert(sorted[..n], rule));
    }
  }

  lemma InsertedAreOld(sorted: seq<Rule>, rule: Rule, r: seq<Rule>)
    requires multiset(r) == multiset(sorted) + multiset{rule}
    ensures forall i :: 0 <= i < |r| ==> r[i] == rule || r[i] in sorted
  {
    forall i | 0 <= i < |r| ensures r[i] == rule || r[i] in sorted {
      assert r[i] in multiset(r);
    }
  }

  /** The same rules by falling length of path, an insertion sort that keeps the order of equals. */
  function Sorted(rules: seq<Rule>): (r: seq<Rule>)
    ensures multiset(r) == multiset(rules) && LongestFirst(r)
    decreases |rules|
  {
    if rules == [] then []
    else
      assert rules == rules[..|rules| - 1] + [rules[|rules| - 1]];
      InsertingKeepsTheOrder(Sorted(rules[..|rules| - 1]), rules[|rules| - 1]);
      Insert(Sorted(rules[..|rules| - 1]), rules[|rules| - 1])
  }

  /** The rules whose path is of one length, in order. */
  function OfLength(rules: seq<Rule>, n: nat): seq<Rule>
    decreases |rules|
  {
    if rules == [] then []
    else
      var before := OfLength(rules[..|rules| - 1], n);
      var rule := rules[|rules| - 1];
      if |rule.key.path| == n then before + [rule] else before
  }

  lemma OfLengthOneMore(rules: seq<Rule>, rule: Rule, n: nat)
    ensures OfLength(rules + [rule], n) == OfLength(rules, n) + if |rule.key.path| == n then [rule] else []
  {
  }

  lemma {:induction false} InsertingKeepsTheOrderOfEquals(sorted: seq<Rule>, rule: Rule, n: nat)
    ensures OfLength(Insert(sorted, rule), n) == OfLength(sorted, n) + if |rule.key.path| == n then [rule] else []
    decreases |sorted|
  {
    hide OfLength;
    OfLengthOneMore(sorted, rule, n);
    if sorted == [] {
      assert sorted + [rule] == [rule];
    } else {
      var m := |sorted| - 1;
      assert sorted == sorted[..m] + [sorted[m]];
      OfLengthOneMore(sorted[..m], sorted[m], n);
      if |sorted[m].key.path| < |rule.key.path| {
        InsertingKeepsTheOrderOfEquals(sorted[..m], rule, n);
        OfLengthOneMore(Insert(sorted[..m], rule), sorted[m], n);
      }
    }
  }

  /** Sorting leaves rules of one length in the order they came in. */
  lemma {:induction false} SortedIsStable(rules: seq<Rule>, n: nat)
    ensures OfLength(Sorted(rules), n) == OfLength(rules, n)
    decreases |rules|
  {
    hide Insert;
    if rules != [] {
      var m := |rules| - 1;
      SortedIsStable(rules[..m], n);
      InsertingKeepsTheOrderOfEquals(Sorted(rules[..m]), rules[m], n);
    }
  }

  ghost predicate TableOf(table: Table, rules: seq<Rule>) {
    && (forall a :: a in table <==> OfAuthority(rules, a) != [])
    && (forall a :: a in table ==> table[a] == Sorted(OfAuthority(rules, a)))
  }

  method Grouped(rules: seq<Rule>) returns (groups: Table)
    ensures forall a :: a in groups <==> OfAuthority(rules, a) != []
    ensures forall a :: a in groups ==> groups[a] == OfAuthority(rules, a)
  {
    groups := map[];
    for i := 0 to |rules|
      invariant forall a :: a in groups <==> OfAuthority(rules[..i], a) != []
      invariant forall a :: a in groups ==> groups[a] == OfAuthority(rules[..i], a)
    {
      var authority := AuthorityOf(rules[i].key);
      assert rules[..i + 1][..i] == rules[..i];
      var group := if authority in groups then groups[authority] else [];
      groups := groups[authority := group + [rules[i]]];
    }
    assert rules[..|rules|] == rules;
  }

  method FromRules(rules: seq<Rule>) returns (table: Table)
    ensures TableOf(table, rules)
  {
    hide OfAuthority, Sorted;
    var groups := Grouped(rules);
    table := groups;
    var unsorted := groups.Keys;
    while unsorted != {}
      invariant unsorted <= groups.Keys == table.Keys
      invariant forall a :: a in groups ==> table[a] == if a in unsorted then groups[a] else Sorted(groups[a])
      decreases unsorted
    {
      var authority :| authority in unsorted;
      table := table[authority := Sorted(table[authority])];
      unsorted := unsorted - {authority};
    }
  }

  /** The table of the rules in force, or the first reserved path among their keys. */
  method Assemble(configured: seq<Rule>, stored: seq<Rule>) returns (r: Result<Table, RouteError>)
    ensures r.Ok? ==> TableOf(r.value, Effective(configured, stored))
    ensures r.Ok? <==> forall rule :: rule in Effective(configured, stored) ==> !IsReserved(rule.key.path)
    ensures r.Err? ==>
              && IsReserved(r.error.path)
              && exists rule :: rule in Effective(configured, stored) && rule.key.path == r.error.path
  {
    var rules := configured;
    for i := 0 to |stored|
      invariant rules == Effective(configured, stored[..i])
    {
      assert stored[..i + 1][..i] == stored[..i];
      if !Keyed(rules, stored[i].key) {
        rules := rules + [stored[i]];
      }
    }
    assert stored[..|stored|] == stored;
    for i := 0 to |rules|
      invariant forall j :: 0 <= j < i ==> !IsReserved(rules[j].key.path)
    {
      if IsReserved(rules[i].key.path) {
        assert rules[i] in rules;
        return Err(ReservedPath(rules[i].key.path));
      }
    }
    var table := FromRules(rules);
    r := Ok(table);
  }

  // ----- resolving -----

  predicate Claims(rule: Rule, requested: Endpoint) {
    && AuthorityOf(rule.key) == AuthorityOf(requested)
    && RemainderOf(rule.key.path, requested.path).Some?
  }

  /** The order-free rule: of the rules that claim a request, one with the longest path. */
  predicate Wins(rules: seq<Rule>, requested: Endpoint, rule: Rule) {
    && rule in rules && Claims(rule, requested)
    && forall other :: other in rules && Claims(other, requested) ==> |other.key.path| <= |rule.key.path|
  }

  /** Where a claimed request goes behind one endpoint, its path as it would be joined. */
  function JoinedPath(rule: Rule, requested: Endpoint, i: nat): string
    requires i < |rule.target| && RemainderOf(rule.key.path, requested.path).Some?
  {
    Join(rule.target[i].endpoint.path, RemainderOf(rule.key.path, requested.path).value)
  }

  /** Whether every endpoint behind a rule can be given the whole path. */
  predicate Reaches(rule: Rule, requested: Endpoint)
    requires Claims(rule, requested)
  {
    forall i :: 0 <= i < |rule.target| ==> |JoinedPath(rule, requested, i)| <= PATH_MAX_BYTES
  }

  /** The endpoints of a rule, each with the unclaimed remainder appended and its own share. */
  predicate Appended(rule: Rule, requested: Endpoint, targets: seq<Weighted>)
    requires Claims(rule, requested)
  {
    && |targets| == |rule.target|
    && forall i :: 0 <= i < |targets| ==>
         && targets[i].weight == rule.target[i].weight
         && AuthorityOf(targets[i].endpoint) == AuthorityOf(rule.target[i].endpoint)
         && targets[i].endpoint.path == JoinedPath(rule, requested, i)
  }

  /**
   A target as the request's path comes out of it: the same in all but the path, and the path what
   follows the rule's in the request put behind the target's own, slashes at their ends apart.
   */
  predicate Rewritten(rule: Rule, requested: Endpoint, target: Weighted, sent: Weighted) {
    var rest, to, path := WithoutSlash(rule.key.path), WithoutSlash(target.endpoint.path), sent.endpoint.path;
    && sent.weight == target.weight && sent.endpoint == target.endpoint.(path := path)
    && (if requested.path == rest then path == target.endpoint.path
        else to <= path && rest + path[|to|..] == requested.path)
  }

  /** The targets of an answer are exactly the rule's, rewritten one by one. */
  lemma TargetsAreRewritten(rule: Rule, requested: Endpoint, targets: seq<Weighted>)
    requires Claims(rule, requested) && Appended(rule, requested, targets)
    ensures |targets| == |rule.target|
    ensures forall i :: 0 <= i < |targets| ==> Rewritten(rule, requested, rule.target[i], targets[i])
  {
  }

  /** What a table built from `rules` may answer. */
  ghost predicate Answers(rules: seq<Rule>, requested: Endpoint, answer: Option<Resolution>) {
    match answer
    case None =>
      (forall rule :: rule in rules ==> !Claims(rule, requested)) ||
      (exists rule :: Wins(rules, requested, rule) && !Reaches(rule, requested))
    case Some(found) =>
      && Wins(rules, requested, found.rule) && Reaches(found.rule, requested)
      && Appended(found.rule, requested, found.targets)
  }

  /** Each endpoint behind a rule with the remainder appended, or nothing when one of them cannot be. */
  method Append(rule: Rule, requested: Endpoint) returns (targets: Option<seq<Weighted>>)
    requires Claims(rule, requested)
    ensures targets.Some? <==> Reaches(rule, requested)
    ensures targets.Some? ==> Appended(rule, requested, targets.value)
    ensures targets.Some? ==>
              && |targets.value| == |rule.target|
              && forall i :: 0 <= i < |targets.value| ==> Rewritten(rule, requested, rule.target[i], targets.value[i])
  {
    hide RemainderOf, Join, IsPath, Rewritten;
    var remainder := RemainderOf(rule.key.path, requested.path).value;
    var done: seq<Weighted> := [];
    for k := 0 to |rule.target|
      invariant |done| == k
      invariant forall j :: 0 <= j < k ==>
        && |JoinedPath(rule, requested, j)| <= PATH_MAX_BYTES
        && done[j].weight == rule.target[j].weight
        && AuthorityOf(done[j].endpoint) == AuthorityOf(rule.target[j].endpoint)
        && done[j].endpoint.path == JoinedPath(rule, requested, j)
    {
      var endpoint := rule.target[k].endpoint;
      var path := Join(endpoint.path, remainder);
      AJoinedPathIsAPathExactly(endpoint.path, rule.key.path, requested.path);
      if !IsPath(path) {
        assert |JoinedPath(rule, requested, k)| > PATH_MAX_BYTES;
        return None;
      }
      done := done + [Weighted(endpoint.(path := path), rule.target[k].weight)];
    }
    TargetsAreRewritten(rule, requested, done);
    targets := Some(done);
  }

  method Resolve(table: Table, requested: Endpoint, ghost rules: seq<Rule>) returns (answer: Option<Resolution>)
    requires TableOf(table, rules)
    ensures Answers(rules, requested, answer)
    ensures answer.Some? ==>
              && |answer.value.targets| == |answer.value.rule.target|
              && forall i :: 0 <= i < |answer.value.targets| ==>
                   Rewritten(answer.value.rule, requested, answer.value.rule.target[i], answer.value.targets[i])
  {
    hide Rewritten, OfAuthority, Sorted, RemainderOf, Wins, Reaches, Appended, LongestFirst;
    var authority := AuthorityOf(requested);
    OfAuthorityHolds(rules, authority);
    if authority !in table {
      return None;
    }
    var group := table[authority];
    SortedHolds(OfAuthority(rules, authority));
    for i := 0 to |group|
      invariant forall j :: 0 <= j < i ==> !Claims(group[j], requested)
    {
      var rule := group[i];
      if RemainderOf(rule.key.path, requested.path).None? {
        continue;
      }
      assert rule in group;
      TheFirstClaimWins(rules, group, requested, i);
      var targets := Append(rule, requested);
      if targets.None? {
        return None;
      }
      return Some(Resolution(rule, targets.value));
    }
    answer := None;
  }

  lemma TheFirstClaimWins(rules: seq<Rule>, group: seq<Rule>, requested: Endpoint, i: nat)
    requires LongestFirst(group) && i < |group| && Claims(group[i], requested)
    requires forall r :: r in group <==> r in rules && AuthorityOf(r.key) == AuthorityOf(requested)
    requires forall j :: 0 <= j < i ==> !Claims(group[j], requested)
    ensures Wins(rules, requested, group[i])
  {
  }

  lemma SortedHolds(rules: seq<Rule>)
    ensures forall r :: r in Sorted(rules) <==> r in rules
    ensures LongestFirst(Sorted(rules))
  {
    forall r ensures r in Sorted(rules) <==> r in rules {
      assert r in Sorted(rules) <==> r in multiset(Sorted(rules));
      assert r in rules <==> r in multiset(rules);
    }
  }

  /** With distinct keys, a request has one winner at most. */
  lemma OneRuleWins(rules: seq<Rule>, requested: Endpoint, a: Rule, b: Rule)
    requires DistinctKeys(rules) && Wins(rules, requested, a) && Wins(rules, requested, b)
    ensures a == b
  {
  }

  /**
   With distinct keys among the configured rules and among the stored ones, what a request is
   answered does not depend on the order either came in.
   */
  lemma TheAnswerIgnoresOrder(configured: seq<Rule>, stored: seq<Rule>, configured': seq<Rule>, stored': seq<Rule>,
                              requested: Endpoint, a: Option<Resolution>, b: Option<Resolution>)
    requires DistinctKeys(configured) && DistinctKeys(stored) && DistinctKeys(stored')
    requires forall r :: r in configured <==> r in configured'
    requires forall r :: r in stored <==> r in stored'
    requires Answers(Effective(configured, stored), requested, a)
    requires Answers(Effective(configured', stored'), requested, b)
    ensures a == b
  {
    hide Effective, Claims, Reaches, Appended;
    var rules, rules' := Effective(configured, stored), Effective(configured', stored');
    ConfigWins(configured, stored);
    ConfigWins(configured', stored');
    SameKeys(configured, configured');
    SameElementsSameWinners(rules, rules', requested);
    if a.Some? && b.Some? {
      OneRuleWins(rules, requested, a.value.rule, b.value.rule);
      SameTargets(a.value, b.value, requested);
    } else if a.Some? {
      var r :| Wins(rules, requested, r) && !Reaches(r, requested);
      OneRuleWins(rules, requested, a.value.rule, r);
    } else if b.Some? {
      var r :| Wins(rules, requested, r) && !Reaches(r, requested);
      OneRuleWins(rules, requested, b.value.rule, r);
    }
  }

  lemma SameKeys(a: seq<Rule>, b: seq<Rule>)
    requires forall r :: r in a <==> r in b
    ensures forall key :: Keyed(a, key) <==> Keyed(b, key)
  {
    forall key ensures Keyed(a, key) <==> Keyed(b, key) {
      if Keyed(a, key) {
        var i :| 0 <= i < |a| && a[i].key == key;
        assert a[i] in b;
      }
      if Keyed(b, key) {
        var i :| 0 <= i < |b| && b[i].key == key;
        assert b[i] in a;
      }
    }
  }

  lemma SameElementsSameWinners(rules: seq<Rule>, rules': seq<Rule>, requested: Endpoint)
    requires forall r :: r in rules <==> r in rules'
    ensures forall r :: Wins(rules, requested, r) <==> Wins(rules', requested, r)
    ensures (forall r :: r in rules ==> !Claims(r, requested)) <==> (forall r :: r in rules' ==> !Claims(r, requested))
  {
  }

  lemma SameTargets(a: Resolution, b: Resolution, requested: Endpoint)
    requires a.rule == b.rule && Claims(a.rule, requested)
    requires Appended(a.rule, requested, a.targets) && Appended(b.rule, requested, b.targets)
    ensures a == b
  {
  }
}
