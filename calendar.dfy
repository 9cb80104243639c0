/** The proleptic Gregorian calendar and the conversion of a Unix instant
    (seconds since 1970-01-01 00:00:00 UTC) into calendar fields, which
    `datetime.fromtimestamp(ts, tz=timezone.utc)` performs. Days are counted
    from 1970-01-01; leap seconds do not exist in this count, as in POSIX time. */
module Calendar {

  const SecondsPerDay := 86400

  /** The last second `datetime` can represent: 9999-12-31 23:59:59 UTC. */
  const MaxTimestamp := 253402300799

  predicate IsLeapYear(y: int) {
    y % 4 == 0 && (y % 100 != 0 || y % 400 == 0)
  }

  function DaysInYear(y: int): int {
    if IsLeapYear(y) then 366 else 365
  }

  function DaysInMonth(y: int, m: int): int
    requires 1 <= m <= 12
  {
    if m == 2 then (if IsLeapYear(y) then 29 else 28)
    else if m == 4 || m == 6 || m == 9 || m == 11 then 30
    else 31
  }

  /** Days in year `y` before the first of month `m`. */
  function DaysBeforeMonth(y: int, m: int): int
    requires 1 <= m <= 12
  {
    (if m == 1 then 0 else if m == 2 then 31 else if m == 3 then 59
     else if m == 4 then 90 else if m == 5 then 120 else if m == 6 then 151
     else if m == 7 then 181 else if m == 8 then 212 else if m == 9 then 243
     else if m == 10 then 273 else if m == 11 then 304 else 334)
    + (if m > 2 && IsLeapYear(y) then 1 else 0)
  }

  /** The months of a year follow one another without gap or overlap. */
  lemma MonthsTileTheYear(y: int, m: int)
    requires 1 <= m <= 12
    ensures DaysBeforeMonth(y, m) + DaysInMonth(y, m)
            == if m == 12 then DaysInYear(y) else DaysBeforeMonth(y, m + 1)
  {
  }

  /** Days from 1970-01-01 to the first of January of year `y` (negative before 1970). */
  function DaysBeforeYear(y: int): int
    decreases if y < 1970 then 1970 - y else y - 1970
  {
    if y == 1970 then 0
    else if y > 1970 then DaysBeforeYear(y - 1) + DaysInYear(y - 1)
    else DaysBeforeYear(y + 1) - DaysInYear(y)
  }

  lemma DaysBeforeNextYear(y: int)
    ensures DaysBeforeYear(y + 1) == DaysBeforeYear(y) + DaysInYear(y)
  {
  }

  /** A later year starts at least 365 days per year later. */
  lemma {:induction false} DaysBeforeYearGrows(a: int, b: int)
    requires a <= b
    ensures DaysBeforeYear(a) + 365 * (b - a) <= DaysBeforeYear(b)
    decreases b - a
  {
    if a < b {
      DaysBeforeYearGrows(a, b - 1);
      DaysBeforeNextYear(b - 1);
    }
  }

  /** Leap years strictly before year `y`, counted from year 0 (floor division). */
  function LeapYearsBefore(y: int): int {
    (y - 1) / 4 - (y - 1) / 100 + (y - 1) / 400
  }

  /** Multiples of `k` up to `y` versus up to `y - 1` (floor division), for
      the three divisors of the leap-year rule. */
  lemma MultiplesStep(y: int, k: int)
    requires k == 4 || k == 100 || k == 400
    ensures y / k - (y - 1) / k == if y % k == 0 then 1 else 0
  {
    if k == 4 {
      assert y / 4 - (y - 1) / 4 == if y % 4 == 0 then 1 else 0;
    } else if k == 100 {
      assert y / 100 - (y - 1) / 100 == if y % 100 == 0 then 1 else 0;
    } else {
      assert y / 400 - (y - 1) / 400 == if y % 400 == 0 then 1 else 0;
    }
  }

  lemma LeapYearsStep(y: int)
    ensures LeapYearsBefore(y + 1) == LeapYearsBefore(y) + (if IsLeapYear(y) then 1 else 0)
  {
    MultiplesStep(y, 4);
    MultiplesStep(y, 100);
    MultiplesStep(y, 400);
  }

  /** The recursive day count agrees with the closed formula: 365 days a year
      plus one per leap year. */
  lemma {:induction false} DaysBeforeYearClosedForm(y: int)
    ensures DaysBeforeYear(y) == 365 * (y - 1970) + LeapYearsBefore(y) - LeapYearsBefore(1970)
    decreases if y < 1970 then 1970 - y else y - 1970
  {
    if y > 1970 {
      DaysBeforeYearClosedForm(y - 1);
      LeapYearsStep(y - 1);
    } else if y < 1970 {
      DaysBeforeYearClosedForm(y + 1);
      LeapYearsStep(y);
    }
  }

  datatype Date = Date(year: int, month: int, day: int)

  predicate ValidDate(d: Date) {
    1 <= d.month <= 12 && 1 <= d.day <= DaysInMonth(d.year, d.month)
  }

  /** Days from 1970-01-01 to `d`. */
  function DaysFromCivil(d: Date): int
    requires ValidDate(d)
  {
    DaysBeforeYear(d.year) + DaysBeforeMonth(d.year, d.month) + d.day - 1
  }

  /** The year holding the day `n` days after the first of January of `y`, and
      that day's index within its year. */
  function YearContaining(y: int, n: int): (r: (int, int))
    ensures 0 <= r.1 < DaysInYear(r.0)
    ensures DaysBeforeYear(r.0) + r.1 == DaysBeforeYear(y) + n
    decreases if n < 0 then 1 else 0, if n < 0 then -n else n
  {
    if n < 0 then
      DaysBeforeNextYear(y - 1);
      YearContaining(y - 1, n + DaysInYear(y - 1))
    else if n >= DaysInYear(y) then
      DaysBeforeNextYear(y);
      YearContaining(y + 1, n - DaysInYear(y))
    else (y, n)
  }

  /** The month, from `m` on, that holds day `dayOfYear` of year `y`. */
  function MonthContaining(y: int, dayOfYear: int, m: int): (r: int)
    requires 1 <= m <= 12 && DaysBeforeMonth(y, m) <= dayOfYear < DaysInYear(y)
    ensures m <= r <= 12
    ensures DaysBeforeMonth(y, r) <= dayOfYear < DaysBeforeMonth(y, r) + DaysInMonth(y, r)
    decreases 12 - m
  {
    MonthsTileTheYear(y, m);
    if m == 12 || dayOfYear < DaysBeforeMonth(y, m) + DaysInMonth(y, m) then m
    else MonthContaining(y, dayOfYear, m + 1)
  }

  /** The calendar date `n` days after 1970-01-01: a valid date that lies `n`
      days after 1970-01-01. */
  function CivilFromDays(n: int): (d: Date)
    ensures ValidDate(d) && DaysFromCivil(d) == n
  {
    var (y, dayOfYear) := YearContaining(1970, n);
    var m := MonthContaining(y, dayOfYear, 1);
    Date(y, m, dayOfYear - DaysBeforeMonth(y, m) + 1)
  }

  /** Every day of a valid date lies inside its own year. */
  lemma DaysFromCivilWithinYear(d: Date)
    requires ValidDate(d)
    ensures DaysBeforeYear(d.year) <= DaysFromCivil(d) < DaysBeforeYear(d.year + 1)
  {
    MonthsTileTheYear(d.year, d.month);
    DaysBeforeNextYear(d.year);
    if d.month < 12 {
      MonthsTileTheYear(d.year, 12);
      assert DaysBeforeMonth(d.year, d.month + 1) <= DaysBeforeMonth(d.year, 12);
    }
  }

  /** Two valid dates with the same day count are the same date. */
  lemma DaysFromCivilInjective(d1: Date, d2: Date)
    requires ValidDate(d1) && ValidDate(d2)
    requires DaysFromCivil(d1) == DaysFromCivil(d2)
    ensures d1 == d2
  {
    DaysFromCivilWithinYear(d1);
    DaysFromCivilWithinYear(d2);
    if d1.year < d2.year {
      DaysBeforeYearGrows(d1.year + 1, d2.year);
      assert false;
    } else if d2.year < d1.year {
      DaysBeforeYearGrows(d2.year + 1, d1.year);
      assert false;
    }
    var y := d1.year;
    MonthsTileTheYear(y, d1.month);
    MonthsTileTheYear(y, d2.month);
  }

  /** Counting the days of a valid date and converting back gives the date. */
  lemma CivilFromDaysInverse(d: Date)
    requires ValidDate(d)
    ensures CivilFromDays(DaysFromCivil(d)) == d
  {
    DaysFromCivilInjective(CivilFromDays(DaysFromCivil(d)), d);
  }

  /** A broken-down UTC date and time of day, as `datetime` holds it. */
  datatype DateTime = DateTime(year: int, month: int, day: int, hour: int, minute: int, second: int) {
    function CalendarDate(): Date {
      Date(year, month, day)
    }

    predicate Valid() {
      && ValidDate(CalendarDate())
      && 0 <= hour < 24 && 0 <= minute < 60 && 0 <= second < 60
    }
  }

  /** The Unix instant a valid date and time denotes. */
  function InstantOf(t: DateTime): int
    requires t.Valid()
  {
    DaysFromCivil(t.CalendarDate()) * SecondsPerDay + t.hour * 3600 + t.minute * 60 + t.second
  }

  /** `datetime.fromtimestamp(x, tz=timezone.utc)` without its range check:
      the valid date and time that denotes instant `x` (days and seconds are
      split with floor division, as Python does for negative instants). */
  function FromInstant(x: int): (t: DateTime)
    ensures t.Valid() && InstantOf(t) == x
  {
    var days := x / SecondsPerDay;
    var secs := x % SecondsPerDay;
    var d := CivilFromDays(days);
    DateTime(d.year, d.month, d.day, secs / 3600, secs % 3600 / 60, secs % 60)
  }

  /** Converting a valid date and time to its instant and back gives it again. */
  lemma FromInstantInverse(t: DateTime)
    requires t.Valid()
    ensures FromInstant(InstantOf(t)) == t
  {
    var x := InstantOf(t);
    var secs := t.hour * 3600 + t.minute * 60 + t.second;
    assert 0 <= secs < SecondsPerDay;
    assert x / SecondsPerDay == DaysFromCivil(t.CalendarDate());
    assert x % SecondsPerDay == secs;
    CivilFromDaysInverse(t.CalendarDate());
  }

  /** Instants from three hours before the epoch up to `MaxTimestamp` fall in
      years 1969 to 9999, and every later instant falls after year 9999: the
      range check of `datetime.fromtimestamp` is exactly `x <= MaxTimestamp`. */
  lemma FromInstantYearRange(x: int)
    requires -10800 <= x
    ensures 1969 <= FromInstant(x).year
    ensures FromInstant(x).year <= 9999 <==> x <= MaxTimestamp
  {
    var t := FromInstant(x);
    var d := t.CalendarDate();
    var n := x / SecondsPerDay;
    assert DaysFromCivil(d) == n;
    DaysFromCivilWithinYear(d);
    DaysBeforeYearClosedForm(1969);
    DaysBeforeYearClosedForm(10000);
    if t.year < 1969 {
      DaysBeforeYearGrows(t.year + 1, 1969);
      assert false;
    }
    if t.year > 9999 {
      DaysBeforeYearGrows(10000, t.year);
    } else {
      DaysBeforeYearGrows(t.year + 1, 10000);
    }
  }

  /** `MaxTimestamp` is 9999-12-31 23:59:59 UTC. */
  lemma MaxTimestampIsLastSecond()
    ensures FromInstant(MaxTimestamp) == DateTime(9999, 12, 31, 23, 59, 59)
  {
    var y := 9999;
    var t := DateTime(y, 12, 31, 23, 59, 59);
    DaysBeforeYearClosedForm(y);
    assert DaysFromCivil(t.CalendarDate()) == DaysBeforeYear(y) + 364;
    assert InstantOf(t) == MaxTimestamp;
    FromInstantInverse(t);
  }
}
