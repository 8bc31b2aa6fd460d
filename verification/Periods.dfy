/**
 Cutting the clock into minutes, hours, days and calendar months in utc, for limits to count over.

 A moment is a whole number of seconds from the unix epoch. The clock is the one chrono can
 represent, the years -262143 to 262142 of the proleptic Gregorian calendar; a moment outside it
 is refused, and the code then falls back on a moment it has.
 */
module Periods {
  import opened Common

  const MINUTE: int := 60
  const HOUR: int := 3600
  const DAY: int := 86400

  const MIN_YEAR: int := -262_143
  const MAX_YEAR: int := 262_142

  // ----- the calendar -----

  predicate Leap(year: int) {
    year % 4 == 0 && (year % 100 != 0 || year % 400 == 0)
  }

  function DaysIn(year: int, month: int): int {
    if month == 2 then (if Leap(year) then 29 else 28)
    else if month == 4 || month == 6 || month == 9 || month == 11 then 30
    else 31
  }

  /** The day a year begins on, counted from the epoch. */
  function YearStart(year: int): int {
    365 * (year - 1) + (year - 1) / 4 - (year - 1) / 100 + (year - 1) / 400 - 719_162
  }

  /** The closed form counts the leap days: a year is as long as the leap rule says. */
  lemma YearLength(year: int)
    ensures YearStart(year + 1) - YearStart(year) == if Leap(year) then 366 else 365
  {
    assert year / 4 - (year - 1) / 4 == if year % 4 == 0 then 1 else 0;
    assert year / 100 - (year - 1) / 100 == if year % 100 == 0 then 1 else 0;
    assert year / 400 - (year - 1) / 400 == if year % 400 == 0 then 1 else 0;
    assert year % 400 == 0 ==> year % 100 == 0;
    assert year % 100 == 0 ==> year % 4 == 0;
  }

  /** How many days of a year come before a month of it. */
  function DaysBefore(year: int, month: int): (days: int)
    requires 1 <= month <= 13
    ensures 28 * (month - 1) <= days
    decreases month
  {
    if month == 1 then 0 else DaysBefore(year, month - 1) + DaysIn(year, month - 1)
  }

  lemma MonthsMakeTheYear(year: int)
    ensures DaysBefore(year, 13) == if Leap(year) then 366 else 365
  {
  }

  const BEFORE: seq<int> := [0, 31, 59, 90, 120, 151, 181, 212, 243, 273, 304, 334]

  /** Where each month of a year falls: past February a leap year runs a day behind. */
  lemma {:induction false} MonthsFallWhereTheyDo(year: int, month: int)
    requires 1 <= month <= 12
    ensures DaysBefore(year, month) == BEFORE[month - 1] + if month > 2 && Leap(year) then 1 else 0
    decreases month
  {
    if month > 1 {
      hide Leap;
      MonthsFallWhereTheyDo(year, month - 1);
    }
  }

  /** A month of the calendar, counted from the first of year zero. */
  type Month = int

  function YearOf(m: Month): int {
    m / 12
  }

  function NumberOf(m: Month): (n: int)
    ensures 1 <= n <= 12
  {
    m % 12 + 1
  }

  /** The day a month begins on, counted from the epoch. */
  function FirstDay(m: Month): int {
    YearStart(YearOf(m)) + DaysBefore(YearOf(m), NumberOf(m))
  }

  /** The month after begins when this one's days are over, December rolling into the next year. */
  lemma MonthLength(m: Month)
    ensures FirstDay(m + 1) == FirstDay(m) + DaysIn(YearOf(m), NumberOf(m))
    ensures FirstDay(m) < FirstDay(m + 1)
  {
    hide YearStart;
    var year, number := YearOf(m), NumberOf(m);
    if number == 12 {
      assert YearOf(m + 1) == year + 1 && NumberOf(m + 1) == 1;
      YearLength(year);
      MonthsMakeTheYear(year);
    } else {
      assert YearOf(m + 1) == year && NumberOf(m + 1) == number + 1;
    }
  }

  lemma {:induction false} MonthsFollowOneAnother(a: Month, b: Month)
    requires a < b
    ensures FirstDay(a) < FirstDay(b)
    decreases b - a
  {
    MonthLength(a);
    if a + 1 < b {
      MonthsFollowOneAnother(a + 1, b);
    }
  }

  /** The month a day falls in, looked for from a month that begins no later. */
  function MonthHolding(day: int, earliest: Month): (m: Month)
    requires FirstDay(earliest) <= day
    ensures FirstDay(m) <= day < FirstDay(m + 1)
    ensures earliest <= m
    decreases day - FirstDay(earliest)
  {
    hide FirstDay;
    MonthLength(earliest);
    if day < FirstDay(earliest + 1) then earliest else MonthHolding(day, earliest + 1)
  }

  /** No day falls in two months. */
  lemma OneMonthHoldsADay(day: int, a: Month, b: Month)
    requires FirstDay(a) <= day < FirstDay(a + 1)
    requires FirstDay(b) <= day < FirstDay(b + 1)
    ensures a == b
  {
    hide FirstDay;
    if a + 1 <= b {
      if a + 1 < b {
        MonthsFollowOneAnother(a + 1, b);
      }
      assert false;
    }
    if b + 1 <= a {
      if b + 1 < a {
        MonthsFollowOneAnother(b + 1, a);
      }
      assert false;
    }
  }

  // ----- stretches of one length -----

  /** Where the stretch of `length` seconds holding a moment begins. */
  function Floor(at: int, length: int): int
    requires length > 0
  {
    at / length * length
  }

  lemma Scales(a: int, b: int, length: int)
    requires a <= b && length > 0
    ensures a * length <= b * length
  {
  }

  lemma FloorHolds(at: int, length: int)
    requires length > 0
    ensures Floor(at, length) <= at < Floor(at, length) + length
  {
  }

  lemma FloorNotBefore(at: int, k: int, length: int)
    requires length > 0 && k * length <= at
    ensures k * length <= Floor(at, length)
  {
    var q := at / length;
    FloorHolds(at, length);
    if q + 1 <= k {
      Scales(q + 1, k, length);
    } else {
      Scales(k, q, length);
    }
  }

  lemma FloorsAgreeExactly(at: int, other: int, length: int)
    requires length > 0
    ensures Floor(at, length) == Floor(other, length) <==> Floor(at, length) <= other < Floor(at, length) + length
    ensures Floor(Floor(at, length), length) == Floor(at, length)
  {
    FloorHolds(at, length);
    FloorHolds(other, length);
    if Floor(at, length) <= other < Floor(at, length) + length {
      SameFloor(at, other, length);
    }
    SameFloor(at, Floor(at, length), length);
  }

  lemma SameFloor(at: int, other: int, length: int)
    requires length > 0 && Floor(at, length) <= other < Floor(at, length) + length
    ensures Floor(other, length) == Floor(at, length)
  {
    var q, p := at / length, other / length;
    FloorHolds(other, length);
    if p < q {
      Scales(p + 1, q, length);
    } else if q < p {
      Scales(q + 1, p, length);
    }
  }

  // ----- moments -----

  const FIRST_MONTH: Month := 12 * MIN_YEAR
  const LAST_MONTH: Month := 12 * MAX_YEAR + 11

  function MinSeconds(): int {
    FirstDay(FIRST_MONTH) * DAY
  }

  function MaxSeconds(): int {
    FirstDay(LAST_MONTH + 1) * DAY - 1
  }

  predicate Representable(seconds: int) {
    MinSeconds() <= seconds <= MaxSeconds()
  }

  function FromUnixSeconds(seconds: int): Option<int> {
    if Representable(seconds) then Some(seconds) else None
  }

  function UnwrapOr(found: Option<int>, fallback: int): int {
    if found.Some? then found.value else fallback
  }

  /** The month a moment falls in. */
  function MonthAt(at: int): (m: Month)
    requires Representable(at)
    ensures FirstDay(m) <= at / DAY < FirstDay(m + 1)
    ensures FIRST_MONTH <= m <= LAST_MONTH
  {
    hide FirstDay;
    var m := MonthHolding(at / DAY, FIRST_MONTH);
    assert m <= LAST_MONTH by {
      if m > LAST_MONTH {
        if m > LAST_MONTH + 1 {
          MonthsFollowOneAnother(LAST_MONTH + 1, m);
        }
        assert false;
      }
    }
    m
  }

  /** The first midnight of a moment's month, in seconds. */
  function MonthBegan(at: int): int
    requires Representable(at)
  {
    FirstDay(MonthAt(at)) * DAY
  }

  /** The first midnight of the next month, falling back on the moment's own month in the last one. */
  function NextMonth(at: int): int
    requires Representable(at)
  {
    var m := MonthAt(at);
    UnwrapOr(if YearOf(m + 1) <= MAX_YEAR then Some(FirstDay(m + 1) * DAY) else None, FirstDay(m) * DAY)
  }

  datatype Period = Minute | Hour | Day | Monthly

  function Length(p: Period): int
    requires !p.Monthly?
  {
    match p
    case Minute => MINUTE
    case Hour => HOUR
    case Day => DAY
  }

  /** The start of a moment's stretch, falling back on the moment itself where that is off the clock. */
  function Began(p: Period, at: int): int
    requires Representable(at)
  {
    match p
    case Minute => UnwrapOr(FromUnixSeconds(Floor(at, MINUTE)), at)
    case Hour => UnwrapOr(FromUnixSeconds(Floor(at, HOUR)), at)
    case Day => UnwrapOr(FromUnixSeconds(Floor(at, DAY)), at)
    case Monthly => MonthBegan(at)
  }

  /** The start of the stretch after a moment's own, with the code's fallbacks at the end of the clock. */
  function Ends(p: Period, at: int): int
    requires Representable(at)
  {
    BeganIsRepresentable(p, at);
    var began := Began(p, at);
    match p
    case Minute => UnwrapOr(FromUnixSeconds(began + MINUTE), at)
    case Hour => UnwrapOr(FromUnixSeconds(began + HOUR), at)
    case Day => UnwrapOr(FromUnixSeconds(began + DAY), at)
    case Monthly => NextMonth(began)
  }

  /** Where the last stretch the clock can hold begins. */
  function LastStretch(p: Period): int {
    if p.Monthly? then FirstDay(LAST_MONTH) * DAY else MaxSeconds() + 1 - Length(p)
  }

  // ----- what a stretch is -----

  /** The start of a stretch is a moment of the clock, no later than anything in it. */
  lemma BeganIsRepresentable(p: Period, at: int)
    requires Representable(at)
    ensures Representable(Began(p, at)) && Began(p, at) <= at
    ensures !p.Monthly? ==> Began(p, at) == Floor(at, Length(p))
  {
    hide FirstDay, Floor, MonthAt;
    if p.Monthly? {
      var m := MonthAt(at);
      if m > FIRST_MONTH {
        MonthsFollowOneAnother(FIRST_MONTH, m);
      }
    } else {
      var days := FirstDay(FIRST_MONTH);
      FloorHolds(at, Length(p));
      match p
      case Minute => FloorNotBefore(at, days * 1440, MINUTE);
      case Hour => FloorNotBefore(at, days * 24, HOUR);
      case Day => FloorNotBefore(at, days, DAY);
    }
  }

  /** A month's midnights, in seconds: no month ends before it begins, and none shares a moment. */
  lemma MonthAtIsUnique(at: int, m: Month)
    requires Representable(at)
    requires FirstDay(m) * DAY <= at < FirstDay(m + 1) * DAY
    ensures MonthAt(at) == m
  {
    hide FirstDay;
    assert FirstDay(m) <= at / DAY < FirstDay(m + 1);
    OneMonthHoldsADay(at / DAY, MonthAt(at), m);
  }

  lemma MonthBounds(at: int)
    requires Representable(at)
    ensures FirstDay(MonthAt(at)) * DAY <= at < FirstDay(MonthAt(at) + 1) * DAY
  {
  }

  lemma MonthsInRange(m: Month)
    requires FIRST_MONTH <= m <= LAST_MONTH
    ensures Representable(FirstDay(m) * DAY)
    ensures m < LAST_MONTH ==> FirstDay(m) < FirstDay(m + 1) <= FirstDay(LAST_MONTH) < FirstDay(LAST_MONTH + 1)
  {
    hide FirstDay;
    if m > FIRST_MONTH {
      MonthsFollowOneAnother(FIRST_MONTH, m);
    }
    MonthsFollowOneAnother(m, LAST_MONTH + 1);
    MonthLength(LAST_MONTH);
    if m < LAST_MONTH {
      MonthLength(m);
      if m + 1 < LAST_MONTH {
        MonthsFollowOneAnother(m + 1, LAST_MONTH);
      }
    }
  }

  /** The month a moment began in began with itself, and it is the last one exactly from its first midnight on. */
  lemma MonthlyEnds(at: int)
    requires Representable(at)
    ensures
      var m := MonthAt(at);
      && Representable(Began(Monthly, at)) && MonthAt(Began(Monthly, at)) == m
      && Ends(Monthly, at) == (if m < LAST_MONTH then FirstDay(m + 1) * DAY else FirstDay(m) * DAY)
      && (m < LAST_MONTH <==> at < LastStretch(Monthly))
  {
    hide FirstDay, MonthAt;
    var m := MonthAt(at);
    MonthBounds(at);
    MonthsInRange(m);
    MonthLength(m);
    MonthAtIsUnique(FirstDay(m) * DAY, m);
    assert YearOf(m + 1) <= MAX_YEAR <==> m < LAST_MONTH;
  }

  /**
   When a stretch can be told to end. Before the last stretch the clock can hold, a period ends
   after the moment asked about; in the last one the code falls back on a moment that is not
   after it.
   */
  lemma APeriodEndsLaterExactly(p: Period, at: int)
    requires Representable(at)
    ensures at < Ends(p, at) <==> at < LastStretch(p)
  {
    hide FirstDay, MonthAt, MonthBegan, NextMonth;
    BeganIsRepresentable(p, at);
    if p.Monthly? {
      MonthlyEnds(at);
      MonthBounds(at);
      if MonthAt(at) < LAST_MONTH {
        MonthsInRange(MonthAt(at));
      }
    } else {
      var days := FirstDay(LAST_MONTH + 1);
      FloorHolds(at, Length(p));
      match p
      case Minute => WholeStretches(at / MINUTE, days * 1440, at, MINUTE);
      case Hour => WholeStretches(at / HOUR, days * 24, at, HOUR);
      case Day => WholeStretches(at / DAY, days, at, DAY);
    }
  }

  /** A moment that fails: the last the clock holds is told of no later end, whatever the period. */
  lemma TheLastMomentHasNoLaterEnd(p: Period)
    ensures Representable(MaxSeconds()) && Ends(p, MaxSeconds()) <= MaxSeconds()
  {
    hide FirstDay, Ends;
    MonthsInRange(FIRST_MONTH);
    MonthLength(LAST_MONTH);
    APeriodEndsLaterExactly(p, MaxSeconds());
  }

  /** On a clock of `all` whole stretches, a moment of stretch `n` is followed by another unless it is the last. */
  lemma WholeStretches(n: int, all: int, at: int, length: int)
    requires length > 0 && n * length <= at < n * length + length
    ensures n * length + length < all * length <==> at < all * length - length
  {
    var ahead := all - 1 - n;
    assert all * length - length == n * length + ahead * length;
    if ahead > 0 {
      Scales(1, ahead, length);
    } else {
      Scales(ahead, 0, length);
    }
  }

  /** Before the last stretch: one stretch ends exactly where the next begins. */
  lemma StretchesMeet(p: Period, at: int)
    requires Representable(at) && at < LastStretch(p)
    ensures Representable(Ends(p, at)) && Began(p, Ends(p, at)) == Ends(p, at)
  {
    hide FirstDay, MonthAt, Floor;
    BeganIsRepresentable(p, at);
    if p.Monthly? {
      var m := MonthAt(at);
      MonthlyEnds(at);
      MonthsInRange(m + 1);
      MonthLength(m + 1);
      MonthAtIsUnique(FirstDay(m + 1) * DAY, m + 1);
    } else {
      APeriodEndsLaterExactly(p, at);
      BeganIsRepresentable(p, Ends(p, at));
      NextFloor(at, Length(p));
    }
  }

  lemma NextFloor(at: int, length: int)
    requires length > 0
    ensures Floor(Floor(at, length) + length, length) == Floor(at, length) + length
  {
    var next := at / length + 1;
    assert Floor(at, length) + length == next * length;
    FloorNotBefore(next * length, next, length);
    FloorHolds(next * length, length);
  }

  /** Where the stretch that began then stops, whether or not the clock can still hold that moment. */
  function Until(p: Period, at: int): int
    requires Representable(at)
  {
    if p.Monthly? then FirstDay(MonthAt(at) + 1) * DAY else Began(p, at) + Length(p)
  }

  /**
   The stretches partition the whole clock, before the epoch included: a moment lies in its own
   stretch, and two moments have the same start exactly when each lies in the other's stretch.
   */
  lemma StretchesPartitionTheClock(p: Period, at: int, other: int)
    requires Representable(at) && Representable(other)
    ensures Began(p, at) <= at < Until(p, at)
    ensures Began(p, at) == Began(p, other) <==> Began(p, at) <= other < Until(p, at)
    ensures Representable(Began(p, at)) && Began(p, Began(p, at)) == Began(p, at)
    ensures at < LastStretch(p) ==> Ends(p, at) == Until(p, at)
  {
    hide FirstDay, MonthAt, Floor;
    BeganIsRepresentable(p, at);
    BeganIsRepresentable(p, other);
    BeganIsRepresentable(p, Began(p, at));
    if !p.Monthly? {
      FloorHolds(at, Length(p));
      FloorsAgreeExactly(at, other, Length(p));
      APeriodEndsLaterExactly(p, at);
    } else {
      var m, n := MonthAt(at), MonthAt(other);
      MonthlyEnds(at);
      MonthBounds(at);
      MonthBounds(other);
      if FirstDay(m) * DAY <= other < FirstDay(m + 1) * DAY {
        MonthAtIsUnique(other, m);
      } else if FirstDay(m) == FirstDay(n) {
        SameStartSameMonth(m, n);
      }
    }
  }

  lemma SameStartSameMonth(m: Month, n: Month)
    requires FirstDay(m) == FirstDay(n)
    ensures m == n
  {
    hide FirstDay;
    if m < n {
      MonthsFollowOneAnother(m, n);
    } else if n < m {
      MonthsFollowOneAnother(n, m);
    }
  }

  /** The calendar is the one everyone reads: these are midnights utc of days anyone can look up. */
  lemma KnownDates()
    ensures FirstDay(12 * 1970) == 0
    ensures FirstDay(12 * 2026) * DAY == 1_767_225_600
    ensures FirstDay(12 * 2024 + 2) - FirstDay(12 * 2024 + 1) == 29
    ensures FirstDay(12 * 1900 + 2) - FirstDay(12 * 1900 + 1) == 28
  {
    assert YearStart(1970) == 0 && YearStart(2026) == 20_454;
    assert YearOf(12 * 1970) == 1970 && NumberOf(12 * 1970) == 1;
    assert YearOf(12 * 2026) == 2026 && NumberOf(12 * 2026) == 1;
    hide FirstDay, YearStart, DaysBefore;
    assert YearOf(12 * 2024 + 1) == 2024 && NumberOf(12 * 2024 + 1) == 2;
    assert YearOf(12 * 1900 + 1) == 1900 && NumberOf(12 * 1900 + 1) == 2;
    MonthLength(12 * 2024 + 1);
    MonthLength(12 * 1900 + 1);
  }
}
