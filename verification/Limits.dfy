/**
 Which limits decide for a request, and where each keeps its count.
 */
module Limits {
  import opened Common
  import opened Periods
  import opened Texts

  const ID_MAX_BYTES: nat := 64

  predicate IsIdChar(c: char) {
    'a' <= c <= 'z' || 'A' <= c <= 'Z' || '0' <= c <= '9' || c == '-' || c == '_' || c == '.'
  }

  /** The name of a tenant, an account or an api. */
  type Id = s: string | 0 < |s| <= ID_MAX_BYTES && forall i :: 0 <= i < |s| ==> IsIdChar(s[i]) witness "a"

  /** The requests a limit covers: one tenant's, and only one account's or one api's where those are given. */
  datatype Scope = Scope(tenant: Id, user: Option<Id>, api: Option<Id>)

  datatype Counted = Tokens | Requests

  datatype Limit = Limit(scope: Scope, counted: Counted, period: Period, allowance: nat)

  datatype Asking = Asking(tenant: Id, user: Id, api: Id)

  /** Whether a request falls inside a scope. */
  predicate Holds(scope: Scope, asking: Asking) {
    && scope.tenant == asking.tenant
    && (scope.user.None? || scope.user.value == asking.user)
    && (scope.api.None? || scope.api.value == asking.api)
  }

  /** A rank that tells the four kinds of scope apart, an account weighing more than an api. */
  function Narrowness(scope: Scope): nat {
    (if scope.user.Some? then 2 else 0) + (if scope.api.Some? then 1 else 0)
  }

  /** Two scopes of one rank that both cover a request are the same scope. */
  lemma NarrownessTellsScopesApart(a: Scope, b: Scope, asking: Asking)
    requires Holds(a, asking) && Holds(b, asking) && Narrowness(a) == Narrowness(b)
    ensures a == b
  {
  }

  // ----- choosing -----

  predicate Matches(l: Limit, asking: Asking, counted: Counted, period: Period) {
    Holds(l.scope, asking) && l.counted == counted && l.period == period
  }

  /** Whether a limit may decide: it matches, and no limit that counts the same is narrower. */
  predicate Decides(limits: seq<Limit>, asking: Asking, l: Limit) {
    && l in limits && Holds(l.scope, asking)
    && forall other :: other in limits && Matches(other, asking, l.counted, l.period) ==>
         Narrowness(other.scope) <= Narrowness(l.scope)
  }

  /** One deciding limit for each thing counted over each stretch that any limit matches, and no other. */
  ghost predicate Chosen(limits: seq<Limit>, asking: Asking, deciding: map<(Counted, Period), Limit>) {
    && (forall c, p :: (c, p) in deciding <==> exists l :: l in limits && Matches(l, asking, c, p))
    && (forall c, p :: (c, p) in deciding ==>
          var l := deciding[(c, p)];
          l.counted == c && l.period == p && Decides(limits, asking, l))
  }

  /** One limit outranks another: it names an account where the other does not, or, alike in that, an api. */
  predicate Outranks(a: Scope, b: Scope) {
    (a.user.Some? && b.user.None?) || (a.user.Some? == b.user.Some? && a.api.Some? && b.api.None?)
  }

  /** Whether a limit's scope covers a request, part by part. */
  predicate Covers(l: Limit, asking: Asking) {
    && l.scope.tenant == asking.tenant
    && (l.scope.user.Some? ==> l.scope.user.value == asking.user)
    && (l.scope.api.Some? ==> l.scope.api.value == asking.api)
  }

  predicate CountAlike(a: Limit, b: Limit) {
    a.counted == b.counted && a.period == b.period
  }

  /** The limits that apply to a request: for each thing and period, the one no other outranks. */
  method ApplyingTo(limits: seq<Limit>, asking: Asking) returns (applying: set<Limit>)
    ensures exists deciding :: Chosen(limits, asking, deciding) && applying == deciding.Values
    ensures forall l :: l in applying ==> l in limits && Covers(l, asking)
    ensures forall l, other ::
              l in applying && other in limits && Covers(other, asking) && CountAlike(other, l) ==>
              !Outranks(other.scope, l.scope)
    ensures forall a, b :: a in applying && b in applying && CountAlike(a, b) ==> a == b
    ensures forall l :: l in limits && Covers(l, asking) ==>
              exists a :: a in applying && CountAlike(a, l)
  {
    ghost var found;
    applying, found := Choose(limits, asking);
    WhatIsChosen(limits, asking, found);
  }

  /** What was chosen for each thing and period, put in terms of what the limits name. */
  lemma WhatIsChosen(limits: seq<Limit>, asking: Asking, found: map<(Counted, Period), Limit>)
    requires Chosen(limits, asking, found)
    ensures
      var applying := found.Values;
      && (forall l :: l in applying ==> l in limits && Covers(l, asking))
      && (forall l, other ::
            l in applying && other in limits && Covers(other, asking) && CountAlike(other, l) ==>
            !Outranks(other.scope, l.scope))
      && (forall a, b :: a in applying && b in applying && CountAlike(a, b) ==> a == b)
      && (forall l :: l in limits && Covers(l, asking) ==>
            exists a :: a in applying && CountAlike(a, l))
  {
    var applying := found.Values;
    forall l | l in applying
      ensures l in limits && Covers(l, asking) && (l.counted, l.period) in found && found[(l.counted, l.period)] == l
    {
      var key :| key in found && found[key] == l;
      assert key == (key.0, key.1);
      assert Decides(limits, asking, l);
    }
    forall l, other | l in applying && other in limits && Covers(other, asking) && CountAlike(other, l)
      ensures !Outranks(other.scope, l.scope)
    {
      assert Decides(limits, asking, found[(l.counted, l.period)]);
      assert Matches(other, asking, l.counted, l.period);
    }
    forall l | l in limits && Covers(l, asking)
      ensures exists a :: a in applying && CountAlike(a, l)
    {
      assert Matches(l, asking, l.counted, l.period);
      assert (l.counted, l.period) in found;
      assert found[(l.counted, l.period)] in applying;
    }
  }

  method Choose(limits: seq<Limit>, asking: Asking)
    returns (applying: set<Limit>, ghost found: map<(Counted, Period), Limit>)
    ensures Chosen(limits, asking, found) && applying == found.Values
  {
    var deciding: map<(Counted, Period), Limit> := map[];
    for i := 0 to |limits|
      invariant Chosen(limits[..i], asking, deciding)
    {
      var limit := limits[i];
      assert limits[..i + 1] == limits[..i] + [limit];
      if !Holds(limit.scope, asking) {
        assert Chosen(limits[..i + 1], asking, deciding);
        continue;
      }
      var key := (limit.counted, limit.period);
      ghost var before := deciding;
      if key in deciding {
        if Narrowness(limit.scope) > Narrowness(deciding[key].scope) {
          deciding := deciding[key := limit];
        }
      } else {
        deciding := deciding[key := limit];
      }
      assert Matches(limit, asking, limit.counted, limit.period);
      assert Chosen(limits[..i + 1], asking, deciding);
    }
    assert limits[..|limits|] == limits;
    applying, found := deciding.Values, deciding;
  }

  predicate Unique(limits: seq<Limit>) {
    forall a, b ::
      a in limits && b in limits && a.scope == b.scope && a.counted == b.counted && a.period == b.period ==>
      a == b
  }

  /** With one limit per scope, thing counted and stretch, the choice does not depend on their order. */
  lemma TheChoiceIgnoresOrder(limits: seq<Limit>, others: seq<Limit>, asking: Asking,
                              a: map<(Counted, Period), Limit>, b: map<(Counted, Period), Limit>)
    requires forall l :: l in limits <==> l in others
    requires Unique(limits) && Chosen(limits, asking, a) && Chosen(others, asking, b)
    ensures a == b
  {
    forall c, p ensures ((c, p) in a <==> (c, p) in b) && ((c, p) in a ==> a[(c, p)] == b[(c, p)]) {
      if (c, p) in a {
        var l :| l in limits && Matches(l, asking, c, p);
        assert l in others && Matches(l, asking, c, p);
        NarrownessTellsScopesApart(a[(c, p)].scope, b[(c, p)].scope, asking);
      }
    }
    assert a.Keys == b.Keys by {
      forall k ensures k in a.Keys <==> k in b.Keys {
        assert k == (k.0, k.1);
      }
    }
    forall k | k in a ensures a[k] == b[k] {
      assert k == (k.0, k.1);
    }
  }

  // ----- where a limit keeps its count -----

  function NamedOr(id: Option<Id>): string {
    if id.Some? then id.value else "*"
  }

  function ScopeText(scope: Scope): string {
    scope.tenant + "/" + NamedOr(scope.user) + "/" + NamedOr(scope.api)
  }

  function CountedName(c: Counted): string {
    match c
    case Tokens => "tokens"
    case Requests => "requests"
  }

  function PeriodName(p: Period): string {
    match p
    case Minute => "minute"
    case Hour => "hour"
    case Day => "day"
    case Monthly => "month"
  }

  function Digit(n: nat): char
    requires n < 10
  {
    '0' + n as char
  }

  function Digits(n: nat): (s: string)
    ensures s != [] && forall i :: 0 <= i < |s| ==> '0' <= s[i] <= '9'
  {
    if n < 10 then [Digit(n)] else Digits(n / 10) + [Digit(n % 10)]
  }

  function Decimal(n: int): string {
    if n < 0 then "-" + Digits(-n) else Digits(n)
  }

  function ReadDigits(s: string): nat
    requires forall i :: 0 <= i < |s| ==> '0' <= s[i] <= '9'
  {
    if s == [] then 0 else ReadDigits(s[..|s| - 1]) * 10 + (s[|s| - 1] - '0') as nat
  }

  lemma {:induction false} DigitsReadBack(n: nat)
    ensures ReadDigits(Digits(n)) == n
  {
    if n >= 10 {
      DigitsReadBack(n / 10);
      assert Digits(n)[..|Digits(n)| - 1] == Digits(n / 10);
    }
  }

  lemma DecimalTellsNumbersApart(m: int, n: int)
    requires Decimal(m) == Decimal(n)
    ensures m == n
  {
    hide Digits;
    var a, b := Decimal(m), Decimal(n);
    assert (m < 0) == (n < 0) by {
      assert m < 0 <==> a[0] == '-';
      assert n < 0 <==> b[0] == '-';
    }
    if m < 0 {
      assert a[1..] == Digits(-m) && b[1..] == Digits(-n);
      DigitsReadBack(-m);
      DigitsReadBack(-n);
    } else {
      DigitsReadBack(m);
      DigitsReadBack(n);
    }
  }

  function Labelled(name: string, rest: string): string {
    name + [':'] + rest
  }

  /** The key of one scope's count of one thing over the stretch that began at a moment. */
  function KeyText(scope: Scope, counted: Counted, period: Period, began: int): string {
    "limit:" + Labelled(ScopeText(scope), Labelled(CountedName(counted), Labelled(PeriodName(period), Decimal(began))))
  }

  /** A limit's counter at a moment: its key, made of scope, thing, period and start, and its seconds to live. */
  function Counter(limit: Limit, now: int): (string, nat)
    requires Representable(now)
  {
    var left := Ends(limit.period, now) - now;
    (KeyText(limit.scope, limit.counted, limit.period, Began(limit.period, now)), if left < 1 then 1 else left)
  }

  lemma IdsHoldNoMarks(id: Option<Id>)
    ensures '/' !in NamedOr(id) && ':' !in NamedOr(id)
    ensures id.Some? ==> NamedOr(id) != "*"
  {
    if id.Some? {
      assert IsIdChar(NamedOr(id)[0]);
    }
  }

  lemma NamedOrTells(a: Option<Id>, b: Option<Id>)
    requires NamedOr(a) == NamedOr(b)
    ensures a == b
  {
    IdsHoldNoMarks(a);
    IdsHoldNoMarks(b);
  }

  lemma ScopeTextInParts(scope: Scope, x: string)
    ensures Labelled(ScopeText(scope), x) ==
            scope.tenant + ['/'] + (NamedOr(scope.user) + ['/'] + (NamedOr(scope.api) + [':'] + x))
  {
  }

  lemma ScopeTextsDiffer(a: Scope, b: Scope, x: string, y: string)
    requires Labelled(ScopeText(a), x) == Labelled(ScopeText(b), y)
    ensures a == b && x == y
  {
    hide ScopeText, Labelled, NamedOr, IsIdChar;
    ScopeTextInParts(a, x);
    ScopeTextInParts(b, y);
    IdsHoldNoMarks(a.user);
    IdsHoldNoMarks(b.user);
    IdsHoldNoMarks(a.api);
    IdsHoldNoMarks(b.api);
    ATenantHoldsNoMarks(a.tenant);
    ATenantHoldsNoMarks(b.tenant);
    var ax, bx := NamedOr(a.api) + [':'] + x, NamedOr(b.api) + [':'] + y;
    OneCut('/', a.tenant, NamedOr(a.user) + ['/'] + ax, b.tenant, NamedOr(b.user) + ['/'] + bx);
    OneCut('/', NamedOr(a.user), ax, NamedOr(b.user), bx);
    OneCut(':', NamedOr(a.api), x, NamedOr(b.api), y);
    NamedOrTells(a.user, b.user);
    NamedOrTells(a.api, b.api);
  }

  lemma ATenantHoldsNoMarks(id: Id)
    ensures '/' !in id
  {
  }

  lemma KeysDiffer(a: Scope, c: Counted, p: Period, m: int, b: Scope, d: Counted, q: Period, n: int)
    requires KeyText(a, c, p, m) == KeyText(b, d, q, n)
    ensures a == b && c == d && p == q && m == n
  {
    hide ScopeText, Decimal, CountedName, PeriodName;
    var ap, bp := Labelled(PeriodName(p), Decimal(m)), Labelled(PeriodName(q), Decimal(n));
    var ac, bc := Labelled(CountedName(c), ap), Labelled(CountedName(d), bp);
    var at, bt := Labelled(ScopeText(a), ac), Labelled(ScopeText(b), bc);
    assert KeyText(a, c, p, m)[6..] == at && KeyText(b, d, q, n)[6..] == bt;
    ScopeTextsDiffer(a, b, ac, bc);
    NamesHoldNoColon(c, p);
    NamesHoldNoColon(d, q);
    OneCut(':', CountedName(c), ap, CountedName(d), bp);
    OneCut(':', PeriodName(p), Decimal(m), PeriodName(q), Decimal(n));
    NamesDiffer(c, p, d, q);
    DecimalTellsNumbersApart(m, n);
  }

  lemma NamesHoldNoColon(c: Counted, p: Period)
    ensures ':' !in CountedName(c) && ':' !in PeriodName(p)
  {
  }

  lemma NamesDiffer(c: Counted, p: Period, d: Counted, q: Period)
    requires CountedName(c) == CountedName(d) && PeriodName(p) == PeriodName(q)
    ensures c == d && p == q
  {
  }

  /** Limits share a count exactly when they are over one scope, one thing and one stretch. */
  lemma CountersAreSharedExactly(a: Limit, b: Limit, now: int, then_: int)
    requires Representable(now) && Representable(then_)
    ensures Counter(a, now).0 == Counter(b, then_).0 <==>
            && a.scope == b.scope && a.counted == b.counted && a.period == b.period
            && Began(a.period, now) == Began(b.period, then_)
  {
    hide Began, Ends, KeyText;
    var m, n := Began(a.period, now), Began(b.period, then_);
    if Counter(a, now).0 == Counter(b, then_).0 {
      KeysDiffer(a.scope, a.counted, a.period, m, b.scope, b.counted, b.period, n);
    }
  }

  /**
   One limit counts two moments together exactly when one stretch holds them both, and what it
   counts is let go exactly as that stretch ends, unless the clock itself ends with it.
   */
  lemma ACountLivesForItsStretch(l: Limit, now: int, then_: int)
    requires Representable(now) && Representable(then_)
    ensures Counter(l, now).0 == Counter(l, then_).0 <==>
            Began(l.period, now) <= then_ < Until(l.period, now)
    ensures now < LastStretch(l.period) ==> now + Counter(l, now).1 == Until(l.period, now)
    ensures now >= LastStretch(l.period) ==> Counter(l, now).1 == 1
  {
    hide Began, Ends, KeyText, Until, LastStretch;
    CountersAreSharedExactly(l, l, now, then_);
    StretchesPartitionTheClock(l.period, now, then_);
    APeriodEndsLaterExactly(l.period, now);
  }
}
