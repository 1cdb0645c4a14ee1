/**
 * The calendar arithmetic that moment performs for the licence library:
 * a local date-time record (no time zone, no daylight-saving shifts),
 * the proleptic Gregorian calendar, adding days and adding months
 * (moment's `add`), and the whole-day difference (moment's `diff(..., 'days')`).
 */
module Calendar {

  /** A local calendar date-time as moment holds it; the month is 1-based here. */
  datatype DateTime = DateTime(year: int, month: int, day: int,
                               hour: int, minute: int, second: int, millisecond: int)

  predicate IsLeapYear(y: int) {
    (y % 4 == 0 && y % 100 != 0) || y % 400 == 0
  }

  function DaysInMonth(y: int, m: int): (n: int)
    requires 1 <= m <= 12
    ensures 28 <= n <= 31
  {
    if m == 2 then (if IsLeapYear(y) then 29 else 28)
    else if m == 4 || m == 6 || m == 9 || m == 11 then 30
    else 31
  }

  function YearLength(y: int): int {
    if IsLeapYear(y) then 366 else 365
  }

  /** Every field in range: what a clock reading or a moment value always satisfies. */
  predicate ValidDateTime(d: DateTime) {
    && 1 <= d.month <= 12
    && 1 <= d.day <= DaysInMonth(d.year, d.month)
    && 0 <= d.hour < 24
    && 0 <= d.minute < 60
    && 0 <= d.second < 60
    && 0 <= d.millisecond < 1000
  }

  predicate SameTimeOfDay(a: DateTime, b: DateTime) {
    a.hour == b.hour && a.minute == b.minute && a.second == b.second && a.millisecond == b.millisecond
  }

  /** Days from 0000-01-01 to the first day of year `y` (negative for earlier years). */
  function DaysBeforeYear(y: int): int {
    365 * y + (y + 3) / 4 - (y + 99) / 100 + (y + 399) / 400
  }

  /** Days from the first of January of `y` to the first of month `m` (13 stands for the next January). */
  function DaysBeforeMonth(y: int, m: int): int
    requires 1 <= m <= 13
  {
    var common := [0, 31, 59, 90, 120, 151, 181, 212, 243, 273, 304, 334, 365];
    common[m - 1] + (if m > 2 && IsLeapYear(y) then 1 else 0)
  }

  /** The number of the day `d` falls on, counting 0000-01-01 as day 0. */
  function DayNumber(d: DateTime): int
    requires 1 <= d.month <= 12
  {
    DaysBeforeYear(d.year) + DaysBeforeMonth(d.year, d.month) + d.day - 1
  }

  /** Milliseconds from 0000-01-01 00:00:00.000 to `d`, on the same local clock. */
  function Instant(d: DateTime): int
    requires 1 <= d.month <= 12
  {
    (((DayNumber(d) * 24 + d.hour) * 60 + d.minute) * 60 + d.second) * 1000 + d.millisecond
  }

  /** The largest distance, in milliseconds, from the Unix epoch that a JavaScript `Date` can hold. */
  const MAX_TIME_VALUE := 8640000000000000

  const UNIX_EPOCH := DateTime(1970, 1, 1, 0, 0, 0, 0)

  /** A JavaScript `Date` can hold d; outside this range moment's date is invalid. */
  predicate Representable(d: DateTime)
    requires 1 <= d.month <= 12
  {
    -MAX_TIME_VALUE <= Instant(d) - Instant(UNIX_EPOCH) <= MAX_TIME_VALUE
  }

  /** Months since January of year 0: the position of `d`'s month on a single scale. */
  function MonthIndex(d: DateTime): int {
    d.year * 12 + d.month - 1
  }

  function Min(a: int, b: int): int {
    if a <= b then a else b
  }

  function NextMonthStart(d: DateTime): DateTime
    requires 1 <= d.month <= 12
  {
    if d.month == 12 then d.(year := d.year + 1, month := 1, day := 1)
    else d.(month := d.month + 1, day := 1)
  }

  function PreviousMonthEnd(d: DateTime): DateTime
    requires 1 <= d.month <= 12
  {
    if d.month == 1 then d.(year := d.year - 1, month := 12, day := 31)
    else d.(month := d.month - 1, day := DaysInMonth(d.year, d.month - 1))
  }

  /**
   * `d` moved by `n` calendar days, keeping the time of day: what moment's
   * `add(n, 'days')` does through `Date.setDate`, which carries overflow
   * into the following (or preceding) months and years.
   */
  function AddDays(d: DateTime, n: int): (r: DateTime)
    requires ValidDateTime(d)
    ensures ValidDateTime(r)
    ensures SameTimeOfDay(r, d)
    decreases if n < 0 then -n else n
  {
    if n == 0 then d
    else if n > 0 then
      var dim := DaysInMonth(d.year, d.month);
      if d.day + n <= dim then d.(day := d.day + n)
      else AddDays(NextMonthStart(d), n - (dim - d.day + 1))
    else
      if d.day + n >= 1 then d.(day := d.day + n)
      else AddDays(PreviousMonthEnd(d), n + d.day)
  }

  /**
   * `d` moved by `n` months, keeping the time of day, with the day of the
   * month clamped to the length of the target month: moment's `setMonth`
   * rule (`Math.min(date, daysInMonth(year, month))`), which `add(n, 'months')`
   * and `add(n, 'years')` (as 12 months per year) both use.
   */
  function AddMonths(d: DateTime, n: int): (r: DateTime)
    requires ValidDateTime(d)
    ensures ValidDateTime(r)
    ensures SameTimeOfDay(r, d)
    ensures MonthIndex(r) == MonthIndex(d) + n
    ensures r.day == Min(d.day, DaysInMonth(r.year, r.month))
  {
    var total := d.month - 1 + n;
    var y := d.year + total / 12;
    var m := total % 12 + 1;
    d.(year := y, month := m, day := Min(d.day, DaysInMonth(y, m)))
  }

  /** Integer division rounding toward zero, as moment's `absFloor` does. */
  function TruncDiv(a: int, b: int): int
    requires b > 0
  {
    if a >= 0 then a / b else -((-a) / b)
  }

  const MILLISECONDS_PER_DAY := 86400000

  /**
   * `moment(later).diff(earlier, 'days')`: the millisecond difference
   * divided by the length of a day, truncated toward zero.
   */
  function DiffDays(later: DateTime, earlier: DateTime): (days: int)
    requires 1 <= later.month <= 12 && 1 <= earlier.month <= 12
    ensures days > 0 <==> Instant(later) - Instant(earlier) >= MILLISECONDS_PER_DAY
    ensures Instant(later) >= Instant(earlier) ==>
              days * MILLISECONDS_PER_DAY <= Instant(later) - Instant(earlier) < (days + 1) * MILLISECONDS_PER_DAY
    ensures Instant(later) < Instant(earlier) ==>
              (days - 1) * MILLISECONDS_PER_DAY < Instant(later) - Instant(earlier) <= days * MILLISECONDS_PER_DAY
  {
    TruncDiv(Instant(later) - Instant(earlier), MILLISECONDS_PER_DAY)
  }

  // ---------------------------------------------------------------------
  // Lemmas
  // ---------------------------------------------------------------------

  /** Moving to the next year adds one to the count of multiples of 4 below it exactly when y is one. */
  lemma CountStep4(y: int)
    ensures (y + 4) / 4 - (y + 3) / 4 == if y % 4 == 0 then 1 else 0
  {
    var q, r := y / 4, y % 4;
    assert y == 4 * q + r && 0 <= r < 4;
    assert (y + 4) / 4 == q + 1;
    assert (y + 3) / 4 == if r == 0 then q else q + 1;
  }

  lemma CountStep100(y: int)
    ensures (y + 100) / 100 - (y + 99) / 100 == if y % 100 == 0 then 1 else 0
  {
    var q, r := y / 100, y % 100;
    assert y == 100 * q + r && 0 <= r < 100;
    assert (y + 100) / 100 == q + 1;
    assert (y + 99) / 100 == if r == 0 then q else q + 1;
  }

  lemma CountStep400(y: int)
    ensures (y + 400) / 400 - (y + 399) / 400 == if y % 400 == 0 then 1 else 0
  {
    var q, r := y / 400, y % 400;
    assert y == 400 * q + r && 0 <= r < 400;
    assert (y + 400) / 400 == q + 1;
    assert (y + 399) / 400 == if r == 0 then q else q + 1;
  }

  /** A multiple of 400 is a multiple of 100. */
  lemma QuadCenturyDivisibility(y: int)
    requires y % 400 == 0
    ensures y % 100 == 0
  {
    var k := 4 * (y / 400);
    assert y == 100 * k;
    assert y / 100 == k;
  }

  /** A multiple of 100 is a multiple of 4. */
  lemma CenturyDivisibility(y: int)
    requires y % 100 == 0
    ensures y % 4 == 0
  {
    var k := 25 * (y / 100);
    assert y == 4 * k;
    assert y / 4 == k;
  }

  lemma DaysBeforeYearStep(y: int)
    ensures DaysBeforeYear(y + 1) == DaysBeforeYear(y) + YearLength(y)
  {
    CountStep4(y);
    CountStep100(y);
    CountStep400(y);
    if y % 400 == 0 {
      QuadCenturyDivisibility(y);
    }
    if y % 100 == 0 {
      CenturyDivisibility(y);
    }
  }

  lemma NextMonthStartNumber(d: DateTime)
    requires ValidDateTime(d)
    ensures ValidDateTime(NextMonthStart(d))
    ensures DayNumber(NextMonthStart(d)) == DayNumber(d) + DaysInMonth(d.year, d.month) - d.day + 1
  {
    if d.month == 12 {
      DaysBeforeYearStep(d.year);
    }
  }

  lemma PreviousMonthEndNumber(d: DateTime)
    requires ValidDateTime(d)
    ensures ValidDateTime(PreviousMonthEnd(d))
    ensures DayNumber(PreviousMonthEnd(d)) == DayNumber(d) - d.day
  {
    if d.month == 1 {
      DaysBeforeYearStep(d.year - 1);
    }
  }

  /** Adding `n` days moves the day number by exactly `n`. */
  lemma {:induction false} AddDaysShift(d: DateTime, n: int)
    requires ValidDateTime(d)
    ensures DayNumber(AddDays(d, n)) == DayNumber(d) + n
    decreases if n < 0 then -n else n
  {
    if n == 0 {
    } else if n > 0 {
      var dim := DaysInMonth(d.year, d.month);
      if d.day + n > dim {
        NextMonthStartNumber(d);
        AddDaysShift(NextMonthStart(d), n - (dim - d.day + 1));
      }
    } else {
      if d.day + n < 1 {
        PreviousMonthEndNumber(d);
        AddDaysShift(PreviousMonthEnd(d), n + d.day);
      }
    }
  }

  /** Adding `n` days moves the instant by exactly `n` days' worth of milliseconds. */
  lemma AddDaysInstant(d: DateTime, n: int)
    requires ValidDateTime(d)
    ensures Instant(AddDays(d, n)) == Instant(d) + n * MILLISECONDS_PER_DAY
  {
    AddDaysShift(d, n);
  }

  /** The month rule on three dates: 2024-01-15 + 1 year, 2024-01-31 + 3 months (clamped to Apr 30), 2024-02-29 + 1 year (clamped to Feb 28). */
  lemma AddMonthsExamples(h: int, mi: int, s: int, ms: int)
    requires 0 <= h < 24 && 0 <= mi < 60 && 0 <= s < 60 && 0 <= ms < 1000
    ensures AddMonths(DateTime(2024, 1, 15, h, mi, s, ms), 12) == DateTime(2025, 1, 15, h, mi, s, ms)
    ensures AddMonths(DateTime(2024, 1, 31, h, mi, s, ms), 3) == DateTime(2024, 4, 30, h, mi, s, ms)
    ensures AddMonths(DateTime(2024, 2, 29, h, mi, s, ms), 12) == DateTime(2025, 2, 28, h, mi, s, ms)
  {
  }

  /** Every date of a four-digit year lies well inside the range a `Date` can hold. */
  lemma FourDigitYearsRepresentable(d: DateTime)
    requires ValidDateTime(d) && 0 <= d.year <= 9999
    ensures Representable(d)
  {
    assert 0 <= DaysBeforeYear(d.year) <= 365 * 9999 + 2500;
    assert 0 <= DaysBeforeMonth(d.year, d.month) <= 335;
    assert 0 <= DayNumber(d) <= 365 * 9999 + 2500 + 335 + 30;
    assert DayNumber(UNIX_EPOCH) == 719528;
  }

  /** Around the year 275760 a `Date` runs out of range; from year 300000 on nothing fits. */
  lemma FarYearsNotRepresentable(d: DateTime)
    requires ValidDateTime(d) && d.year >= 300000
    ensures !Representable(d)
  {
    assert DaysBeforeYear(d.year) >= 365 * 300000;
    assert DayNumber(d) >= 365 * 300000;
    assert DayNumber(UNIX_EPOCH) == 719528;
  }
}
