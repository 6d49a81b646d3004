/** Resolving the two-digit year of an RFC 850 date (section 5.6.7 of RFC 9110) by calendar arithmetic. */
module Rfc850Year {
  import opened Common

  const DAY_MS := 86_400_000

  predicate Leap(y: int) {
    y % 4 == 0 && (y % 100 != 0 || y % 400 == 0)
  }

  /** Days from a fixed origin to 1 January of year y, Gregorian. */
  function DaysBeforeYear(y: int): int {
    365 * y + (y - 1) / 4 - (y - 1) / 100 + (y - 1) / 400
  }

  /** Months are 0 to 11. */
  function DaysBeforeMonth(y: int, month: int): (r: int)
    requires 0 <= month < 12
    ensures 0 <= r <= 335
  {
    [0, 31, 59, 90, 120, 151, 181, 212, 243, 273, 304, 334][month] + if month >= 2 && Leap(y) then 1 else 0
  }

  /** A day past the end of its month runs on into the next one, as in `Date`. */
  function TimeOf(y: int, month: int, day: int, ms: int): int
    requires 0 <= month < 12
  {
    (DaysBeforeYear(y) + DaysBeforeMonth(y, month) + day - 1) * DAY_MS + ms
  }

  function YearStart(y: int): int {
    DaysBeforeYear(y) * DAY_MS
  }

  function DaysInMonth(y: int, month: int): int
    requires 0 <= month < 12
  {
    if month == 11 then 31 else DaysBeforeMonth(y, month + 1) - DaysBeforeMonth(y, month)
  }

  /** The clock, read in UTC. */
  datatype Clock = Clock(year: int, month: int, day: int, ms: int)

  predicate Valid(now: Clock) {
    0 <= now.month < 12 && 1 <= now.day <= DaysInMonth(now.year, now.month) && 0 <= now.ms < DAY_MS
  }

  /**
   * Day, month and time of a date that `Date.parse` accepts: any day up to 31 in any month, and any time up
   * to 24:00:00.
   */
  datatype Stamp = Stamp(month: int, day: int, ms: int)

  predicate Parsable(s: Stamp) {
    0 <= s.month < 12 && 1 <= s.day <= 31 && 0 <= s.ms <= DAY_MS
  }

  function StampAt(s: Stamp, y: int): int
    requires Parsable(s)
  {
    TimeOf(y, s.month, s.day, s.ms)
  }

  /** `setUTCFullYear(currentYear + 50)`: 29 February runs on into 1 March when that year has none. */
  function Cutoff(now: Clock): int
    requires Valid(now)
  {
    TimeOf(now.year + 50, now.month, now.day, now.ms)
  }

  // ---- The calendar facts the loops rest on ----

  lemma QuotientStep4(y: int)
    ensures y / 4 == (y - 1) / 4 + if y % 4 == 0 then 1 else 0
    ensures (y + 99) / 4 == (y - 1) / 4 + 25
  {
  }

  lemma QuotientStep100(y: int)
    ensures y / 100 == (y - 1) / 100 + if y % 100 == 0 then 1 else 0
    ensures (y + 99) / 100 == (y - 1) / 100 + 1
  {
  }

  lemma QuotientStep400(y: int)
    ensures y / 400 == (y - 1) / 400 + if y % 400 == 0 then 1 else 0
    ensures (y - 1) / 400 <= (y + 99) / 400 <= (y - 1) / 400 + 1
  {
  }

  lemma Multiples(q: int)
    ensures (4 * q) % 4 == 0 && (100 * q) % 100 == 0
  {
  }

  lemma HundredsAreFours(y: int)
    requires y % 100 == 0
    ensures y % 4 == 0
  {
    Multiples(25 * (y / 100));
  }

  lemma FourHundredsAreHundreds(y: int)
    requires y % 400 == 0
    ensures y % 100 == 0
  {
    Multiples(4 * (y / 400));
  }

  /** A century has one leap day fewer than 25, unless its first year is a multiple of 400 and keeps its own. */
  lemma CenturyDays(y: int)
    ensures 36524 <= DaysBeforeYear(y + 100) - DaysBeforeYear(y) <= 36525
  {
    QuotientStep4(y);
    QuotientStep100(y);
    QuotientStep400(y);
  }

  lemma YearDays(y: int)
    ensures DaysBeforeYear(y + 1) == DaysBeforeYear(y) + if Leap(y) then 366 else 365
  {
    QuotientStep4(y);
    QuotientStep100(y);
    QuotientStep400(y);
    if y % 400 == 0 {
      FourHundredsAreHundreds(y);
    }
    if y % 100 == 0 {
      HundredsAreFours(y);
    }
  }

  lemma YearsInOrder(a: int, b: int)
    requires a <= b
    ensures YearStart(a) <= YearStart(b)
    decreases b - a
  {
    if a < b {
      YearDays(b - 1);
      YearsInOrder(a, b - 1);
    }
  }

  /** A century on, the same stamp is at least 36523 days later. */
  lemma CenturyLater(s: Stamp, y: int)
    requires Parsable(s)
    ensures StampAt(s, y + 100) >= StampAt(s, y) + 36_523 * DAY_MS
  {
    hide DaysBeforeYear;
    CenturyDays(y);
  }

  lemma {:induction false} CenturiesInOrder(s: Stamp, y: int, n: nat)
    requires Parsable(s) && n > 0
    ensures StampAt(s, y + 100 * n) > StampAt(s, y)
  {
    hide TimeOf;
    CenturyLater(s, y + 100 * (n - 1));
    if n > 1 {
      CenturiesInOrder(s, y, n - 1);
    }
    assert y + 100 * (n - 1) + 100 == y + 100 * n;
  }

  /** A parsable stamp lies in its own year, or at the very end of it: 24:00:00 on 31 December. */
  lemma StampInYear(s: Stamp, y: int)
    requires Parsable(s)
    ensures YearStart(y) <= StampAt(s, y) <= YearStart(y + 1)
  {
    YearDays(y);
  }

  lemma CutoffInYear(now: Clock)
    requires Valid(now)
    ensures YearStart(now.year + 50) <= Cutoff(now) < YearStart(now.year + 51)
  {
    YearDays(now.year + 50);
    hide DaysBeforeYear;
    var y := now.year + 50;
    assert DaysBeforeMonth(y, now.month) + now.day - 1 < if Leap(y) then 366 else 365;
  }

  // ---- The time scale is the calendar's ----

  /** The months have the lengths of the Gregorian calendar and follow one another from 1 January on. */
  lemma MonthLengths(y: int, month: int)
    requires 0 <= month < 12
    ensures DaysInMonth(y, month) ==
            if month == 1 then (if Leap(y) then 29 else 28) else if month in {3, 5, 8, 10} then 30 else 31
    ensures TimeOf(y, 0, 1, 0) == YearStart(y)
    ensures TimeOf(y, month, DaysInMonth(y, month) + 1, 0) ==
            if month == 11 then YearStart(y + 1) else TimeOf(y, month + 1, 1, 0)
  {
    YearDays(y);
  }

  /** A day past the end of its month is as many days into the next one. */
  lemma RunsOn(y: int, month: int, past: int, ms: int)
    requires 0 <= month < 11
    ensures TimeOf(y, month, DaysInMonth(y, month) + past, ms) == TimeOf(y, month + 1, past, ms)
  {
    hide DaysBeforeYear;
  }

  /** Year, month, day and time, compared in that order. */
  predicate Earlier(a: Clock, b: Clock) {
    a.year < b.year || (a.year == b.year && (a.month < b.month || (a.month == b.month &&
    (a.day < b.day || (a.day == b.day && a.ms < b.ms)))))
  }

  function TimeOfClock(c: Clock): int
    requires Valid(c)
  {
    TimeOf(c.year, c.month, c.day, c.ms)
  }

  lemma ClockInYear(c: Clock)
    requires Valid(c)
    ensures YearStart(c.year) <= TimeOfClock(c) < YearStart(c.year + 1)
  {
    YearDays(c.year);
    hide DaysBeforeYear;
    assert DaysBeforeMonth(c.year, c.month) + c.day - 1 < if Leap(c.year) then 366 else 365;
  }

  lemma MonthsInOrder(y: int, a: int, b: int)
    requires 0 <= a < b < 12
    ensures DaysBeforeMonth(y, a) + DaysInMonth(y, a) <= DaysBeforeMonth(y, b)
  {
  }

  lemma EarlierIsLess(a: Clock, b: Clock)
    requires Valid(a) && Valid(b) && Earlier(a, b)
    ensures TimeOfClock(a) < TimeOfClock(b)
  {
    hide DaysBeforeYear, DaysBeforeMonth, DaysInMonth;
    if a.year < b.year {
      ClockInYear(a);
      ClockInYear(b);
      YearsInOrder(a.year + 1, b.year);
    } else if a.month < b.month {
      MonthsInOrder(a.year, a.month, b.month);
    }
  }

  /** One date and time is before another on the time scale exactly when it is so on the calendar. */
  lemma TimeFollowsCalendar(a: Clock, b: Clock)
    requires Valid(a) && Valid(b)
    ensures TimeOfClock(a) < TimeOfClock(b) <==> Earlier(a, b)
  {
    if Earlier(a, b) {
      EarlierIsLess(a, b);
    } else if a != b {
      EarlierIsLess(b, a);
    }
  }

  /**
   * Within the cutoff means, on the calendar, no later than the same day and time fifty years on; 1 March stands
   * for a 29 February that the later year does not have.
   */
  lemma WithinCutoffIff(now: Clock, s: Stamp, year: int)
    requires Valid(now) && Valid(Clock(year, s.month, s.day, s.ms))
    ensures var y := now.year + 50;
            var limit := if now.month == 1 && now.day == 29 && !Leap(y) then Clock(y, 2, 1, now.ms)
                         else now.(year := y);
            StampAt(s, year) <= Cutoff(now) <==> !Earlier(limit, Clock(year, s.month, s.day, s.ms))
  {
    hide DaysBeforeYear;
    MonthLengths(year, s.month);
    MonthLengths(now.year, now.month);
    MonthLengths(now.year + 50, now.month);
    var y := now.year + 50;
    var limit := if now.month == 1 && now.day == 29 && !Leap(y) then Clock(y, 2, 1, now.ms)
                 else now.(year := y);
    assert Valid(limit) && TimeOfClock(limit) == Cutoff(now) by {
      MonthLengths(y, 2);
      RunsOn(y, 1, 1, now.ms);
    }
    TimeFollowsCalendar(limit, Clock(year, s.month, s.day, s.ms));
  }

  // ---- The resolution ----

  function StartYear(now: Clock, twoDigits: int): int {
    now.year / 100 * 100 + twoDigits
  }

  /** The latest year with the suffix whose stamp is not past the cutoff. */
  ghost predicate Resolves(now: Clock, s: Stamp, twoDigits: int, year: int)
    requires Valid(now) && Parsable(s)
  {
    year % 100 == twoDigits && StampAt(s, year) <= Cutoff(now) < StampAt(s, year + 100)
  }

  /** The two loops. A stamp `Date.parse` rejects compares as NaN, so neither loop runs. */
  method ResolveYear(now: Clock, stamp: Option<Stamp>, twoDigits: int) returns (year: int)
    requires Valid(now) && (stamp.Some? ==> Parsable(stamp.value)) && 0 <= twoDigits < 100
    ensures year % 100 == twoDigits
    ensures stamp.None? ==> year == StartYear(now, twoDigits)
    ensures stamp.Some? ==> Resolves(now, stamp.value, twoDigits, year)
  {
    hide TimeOf;
    var cutoff := Cutoff(now);
    year := StartYear(now, twoDigits);
    if stamp.None? {
      return;
    }
    var s := stamp.value;
    while StampAt(s, year + 100) <= cutoff
      invariant year % 100 == twoDigits
      decreases cutoff - StampAt(s, year + 100)
    {
      CenturyLater(s, year + 100);
      year := year + 100;
    }
    while StampAt(s, year) > cutoff
      invariant year % 100 == twoDigits && StampAt(s, year + 100) > cutoff
      decreases StampAt(s, year) - cutoff
    {
      CenturyLater(s, year - 100);
      year := year - 100;
    }
  }

  /** At most one year resolves a date, and it is the latest one with the suffix that is not past the cutoff. */
  lemma ResolvedYearIsLatest(now: Clock, s: Stamp, twoDigits: int, year: int, other: int)
    requires Valid(now) && Parsable(s) && Resolves(now, s, twoDigits, year) && other % 100 == twoDigits
    ensures StampAt(s, other) <= Cutoff(now) <==> other <= year
    ensures Resolves(now, s, twoDigits, other) <==> other == year
  {
    hide TimeOf;
    SuffixDistance(year, other);
    if other > year + 100 {
      CenturiesInOrder(s, year + 100, (other - year - 100) / 100);
    } else if other < year {
      CenturiesInOrder(s, other, (year - other) / 100);
      if other + 100 < year {
        CenturiesInOrder(s, other + 100, (year - other - 100) / 100);
      }
    }
  }

  lemma SuffixDistance(a: int, b: int)
    requires a % 100 == b % 100
    ensures (b - a) % 100 == 0
    ensures b > a ==> b == a + 100 * ((b - a) / 100) && b >= a + 100
    ensures b < a ==> a == b + 100 * ((a - b) / 100) && a >= b + 100
  {
  }

  /** The year is never more than 50 years away, so each loop runs at most once. */
  lemma ResolvedYearIsNear(now: Clock, s: Stamp, twoDigits: int, year: int)
    requires Valid(now) && Parsable(s) && 0 <= twoDigits < 100 && Resolves(now, s, twoDigits, year)
    ensures now.year - 50 <= year <= now.year + 50
    ensures year - StartYear(now, twoDigits) in {-100, 0, 100}
  {
    hide TimeOf, DaysBeforeYear;
    CutoffInYear(now);
    StampInYear(s, year);
    StampInYear(s, year + 100);
    if year >= now.year + 51 {
      YearsInOrder(now.year + 51, year);
    }
    if year + 100 <= now.year + 49 {
      YearsInOrder(year + 101, now.year + 50);
    }
    var start := StartYear(now, twoDigits);
    SuffixDistance(start, year);
  }
}
