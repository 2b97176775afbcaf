/**
 * Proleptic Gregorian civil dates and the date-fns operations the calendar uses on them:
 * `addMonths` (with day clamping), `addDays`, `getDay`, `startOfWeek`, `endOfWeek`,
 * `startOfMonth`, `endOfMonth` and `eachDayOfInterval` over one month. Time of day is not modelled.
 */
module CivilDates {

  datatype Date = Date(year: int, month: int, day: int)

  predicate IsLeapYear(y: int) {
    y % 4 == 0 && (y % 100 != 0 || y % 400 == 0)
  }

  function DaysInMonth(y: int, m: int): (n: int)
    requires 1 <= m <= 12
    ensures 28 <= n <= 31
    ensures n == 29 <==> m == 2 && IsLeapYear(y)
    ensures n == 28 <==> m == 2 && !IsLeapYear(y)
  {
    if m == 2 then (if IsLeapYear(y) then 29 else 28)
    else if m == 4 || m == 6 || m == 9 || m == 11 then 30
    else 31
  }

  predicate ValidDate(d: Date) {
    1 <= d.month <= 12 && 1 <= d.day <= DaysInMonth(d.year, d.month)
  }

  /** A real calendar day: month 1..12 and a day that exists in that month. */
  type CivilDate = d: Date | ValidDate(d) witness Date(1970, 1, 1)

  const Epoch: CivilDate := Date(1970, 1, 1)

  function Min(a: int, b: int): int { if a <= b then a else b }

  function DaysInYear(y: int): int {
    if IsLeapYear(y) then 366 else 365
  }

  /** Days from 1970-01-01 to January 1st of year `y` (negative before 1970). */
  function DaysBeforeYear(y: int): int
    decreases if y < 1970 then 1970 - y else y - 1970
  {
    if y == 1970 then 0
    else if y > 1970 then DaysBeforeYear(y - 1) + DaysInYear(y - 1)
    else DaysBeforeYear(y + 1) - DaysInYear(y)
  }

  /** Days of year `y` before the first of month `m`. */
  function DaysBeforeMonth(y: int, m: int): int
    requires 1 <= m <= 12
  {
    [0, 31, 59, 90, 120, 151, 181, 212, 243, 273, 304, 334][m - 1]
      + (if m > 2 && IsLeapYear(y) then 1 else 0)
  }

  /** Days since 1970-01-01: the instant order of JavaScript dates at day granularity. */
  function DayNumber(d: CivilDate): int {
    DaysBeforeYear(d.year) + DaysBeforeMonth(d.year, d.month) + d.day - 1
  }

  /** date-fns `getDay`: 0 for Sunday through 6 for Saturday; 1970-01-01 was a Thursday. */
  function Weekday(d: CivilDate): (w: int)
    ensures 0 <= w < 7
  {
    (DayNumber(d) + 4) % 7
  }

  /** `year * 12 + month` counted from zero: consecutive months have consecutive indices. */
  function MonthIndex(d: Date): int {
    d.year * 12 + d.month - 1
  }

  function NextDay(d: CivilDate): (r: CivilDate)
    ensures DayNumber(r) == DayNumber(d) + 1
  {
    DaysBeforeYearStep(d.year);
    if d.day < DaysInMonth(d.year, d.month) then Date(d.year, d.month, d.day + 1)
    else if d.month < 12 then Date(d.year, d.month + 1, 1)
    else Date(d.year + 1, 1, 1)
  }

  function PreviousDay(d: CivilDate): (r: CivilDate)
    ensures DayNumber(r) == DayNumber(d) - 1
  {
    DaysBeforeYearStep(d.year - 1);
    if d.day > 1 then Date(d.year, d.month, d.day - 1)
    else if d.month > 1 then Date(d.year, d.month - 1, DaysInMonth(d.year, d.month - 1))
    else Date(d.year - 1, 12, 31)
  }

  /** date-fns `addDays(d, n)`: the civil date `n` days later (earlier when `n < 0`). */
  function AddDays(d: CivilDate, n: int): (r: CivilDate)
    ensures DayNumber(r) == DayNumber(d) + n
    decreases if n < 0 then -n else n
  {
    if n == 0 then d
    else if n > 0 then AddDays(NextDay(d), n - 1)
    else AddDays(PreviousDay(d), n + 1)
  }

  /**
   * date-fns `addMonths(d, k)`: the same day `k` months later, clamped to the last day
   * of the target month when that month is shorter.
   */
  function AddMonths(d: CivilDate, k: int): (r: CivilDate)
    ensures MonthIndex(r) == MonthIndex(d) + k
    ensures r.day == Min(d.day, DaysInMonth(r.year, r.month))
  {
    var t := MonthIndex(d) + k;
    var y := t / 12;
    var m := t % 12 + 1;
    Date(y, m, Min(d.day, DaysInMonth(y, m)))
  }

  /** date-fns `startOfWeek` with weeks starting on Sunday. */
  function StartOfWeek(d: CivilDate): CivilDate {
    AddDays(d, -Weekday(d))
  }

  /** date-fns `endOfWeek` with weeks starting on Sunday (at day granularity). */
  function EndOfWeek(d: CivilDate): CivilDate {
    AddDays(d, 6 - Weekday(d))
  }

  /** date-fns `startOfMonth`. */
  function StartOfMonth(d: CivilDate): (r: CivilDate)
    ensures r.year == d.year && r.month == d.month && r.day == 1
  {
    Date(d.year, d.month, 1)
  }

  /** date-fns `eachDayOfInterval({start: startOfMonth(d), end: endOfMonth(d)})`. */
  function DatesInMonth(d: CivilDate): (s: seq<CivilDate>)
    ensures |s| == DaysInMonth(d.year, d.month)
  {
    seq(DaysInMonth(d.year, d.month), (i: nat) requires i < DaysInMonth(d.year, d.month) =>
      var c: CivilDate := Date(d.year, d.month, i + 1); c)
  }

  // ---------------------------------------------------------------------------
  // Facts about the day count

  lemma DaysBeforeYearStep(y: int)
    ensures DaysBeforeYear(y + 1) == DaysBeforeYear(y) + DaysInYear(y)
  {
  }

  lemma {:induction false} DaysBeforeYearMonotone(a: int, b: int)
    requires a <= b
    ensures DaysBeforeYear(a) + 365 * (b - a) <= DaysBeforeYear(b)
    decreases b - a
  {
    if a < b {
      DaysBeforeYearMonotone(a, b - 1);
      DaysBeforeYearStep(b - 1);
    }
  }

  /** A date's day count lies within its year. */
  lemma DayNumberInYear(d: CivilDate)
    ensures DaysBeforeYear(d.year) <= DayNumber(d) < DaysBeforeYear(d.year + 1)
  {
    DaysBeforeYearStep(d.year);
  }

  /** The day count names each civil date exactly once. */
  lemma DayNumberInjective(a: CivilDate, b: CivilDate)
    requires DayNumber(a) == DayNumber(b)
    ensures a == b
  {
    DayNumberInYear(a);
    DayNumberInYear(b);
    if a.year < b.year {
      DaysBeforeYearMonotone(a.year + 1, b.year);
      assert false;
    } else if b.year < a.year {
      DaysBeforeYearMonotone(b.year + 1, a.year);
      assert false;
    }
  }

  /** The day count orders dates as the calendar does. */
  lemma DayNumberOrder(a: CivilDate, b: CivilDate)
    requires a.year < b.year
      || (a.year == b.year && a.month < b.month)
      || (a.year == b.year && a.month == b.month && a.day < b.day)
    ensures DayNumber(a) < DayNumber(b)
  {
    DayNumberInYear(a);
    DayNumberInYear(b);
    if a.year < b.year {
      DaysBeforeYearMonotone(a.year + 1, b.year);
    }
  }

  lemma WeekdayShift(d: CivilDate, e: CivilDate, n: int)
    requires DayNumber(e) == DayNumber(d) + n
    ensures Weekday(e) == (Weekday(d) + n) % 7
  {
    var x := DayNumber(d) + 4;
    assert x == 7 * (x / 7) + Weekday(d);
    assert DayNumber(e) + 4 == 7 * (x / 7) + (Weekday(d) + n);
  }

  lemma WeekdayStep(d: CivilDate)
    ensures Weekday(NextDay(d)) == (Weekday(d) + 1) % 7
  {
    WeekdayShift(d, NextDay(d), 1);
  }

  // ---------------------------------------------------------------------------
  // Facts about the date-fns operations

  /** Moving `n` days and then `-n` days returns to the same date. */
  lemma AddDaysRoundTrip(d: CivilDate, n: int)
    ensures AddDays(AddDays(d, n), -n) == d
  {
    DayNumberInjective(AddDays(AddDays(d, n), -n), d);
  }

  /** Moving `a` days and then `b` days is moving `a + b` days. */
  lemma AddDaysCompose(d: CivilDate, a: int, b: int)
    ensures AddDays(AddDays(d, a), b) == AddDays(d, a + b)
  {
    DayNumberInjective(AddDays(AddDays(d, a), b), AddDays(d, a + b));
  }

  lemma MonthIndexDetermines(a: Date, b: Date)
    requires 1 <= a.month <= 12 && 1 <= b.month <= 12
    requires MonthIndex(a) == MonthIndex(b)
    ensures a.year == b.year && a.month == b.month
  {
  }

  /** `addMonths` by twelve keeps the month and moves to the next year, clamping 29 February. */
  lemma AddTwelveMonths(d: CivilDate, years: int)
    ensures AddMonths(d, 12 * years).year == d.year + years
    ensures AddMonths(d, 12 * years).month == d.month
    ensures AddMonths(d, 12 * years).day == Min(d.day, DaysInMonth(d.year + years, d.month))
  {
    var r := AddMonths(d, 12 * years);
    MonthIndexDetermines(r, Date(d.year + years, d.month, 1));
  }

  /** A day that exists in the target month is kept, so the shift can be undone. */
  lemma AddMonthsRoundTrip(d: CivilDate, k: int)
    requires d.day <= DaysInMonth(AddMonths(d, k).year, AddMonths(d, k).month)
    ensures AddMonths(AddMonths(d, k), -k) == d
  {
    var r := AddMonths(AddMonths(d, k), -k);
    MonthIndexDetermines(r, d);
  }

  /** Two month shifts compose when the day survives the intermediate month. */
  lemma AddMonthsCompose(d: CivilDate, a: int, b: int)
    requires d.day <= DaysInMonth(AddMonths(d, a).year, AddMonths(d, a).month)
    ensures AddMonths(AddMonths(d, a), b) == AddMonths(d, a + b)
  {
    MonthIndexDetermines(AddMonths(AddMonths(d, a), b), AddMonths(d, a + b));
  }

  /** Start and end of week: the Sunday and the Saturday around `d`, six days apart. */
  lemma WeekBounds(d: CivilDate)
    ensures Weekday(StartOfWeek(d)) == 0
    ensures Weekday(EndOfWeek(d)) == 6
    ensures DayNumber(StartOfWeek(d)) <= DayNumber(d) <= DayNumber(EndOfWeek(d))
    ensures DayNumber(EndOfWeek(d)) == DayNumber(StartOfWeek(d)) + 6
  {
    WeekdayShift(d, StartOfWeek(d), -Weekday(d));
    WeekdayShift(d, EndOfWeek(d), 6 - Weekday(d));
  }

  /** The day `i` days after the start of a week is weekday `i`. */
  lemma WeekdayInWeek(d: CivilDate, i: int)
    requires 0 <= i < 7
    ensures Weekday(AddDays(StartOfWeek(d), i)) == i
  {
    var sunday := StartOfWeek(d);
    WeekBounds(d);
    WeekdayFromSunday(sunday, AddDays(sunday, i), i);
  }

  lemma WeekdayFromSunday(sunday: CivilDate, e: CivilDate, i: int)
    requires Weekday(sunday) == 0 && 0 <= i < 7
    requires DayNumber(e) == DayNumber(sunday) + i
    ensures Weekday(e) == i
  {
    WeekdayShift(sunday, e, i);
  }

  /** The date `n` days after a Sunday, `n < 7`, has that Sunday as its start of week. */
  lemma StartOfWeekFromSunday(s: CivilDate, e: CivilDate, n: int)
    requires Weekday(s) == 0 && 0 <= n <= 6
    requires DayNumber(e) == DayNumber(s) + n
    ensures StartOfWeek(e) == s
  {
    WeekdayShift(s, e, n);
    DayNumberInjective(StartOfWeek(e), s);
  }

  /** Every day of one week has the same start and end of week. */
  lemma SameWeek(d: CivilDate, e: CivilDate)
    requires DayNumber(StartOfWeek(d)) <= DayNumber(e) <= DayNumber(EndOfWeek(d))
    ensures StartOfWeek(e) == StartOfWeek(d)
    ensures EndOfWeek(e) == EndOfWeek(d)
  {
    var s := StartOfWeek(d);
    WeekBounds(d);
    StartOfWeekFromSunday(s, e, DayNumber(e) - DayNumber(s));
    StartOfWeekFromSunday(s, d, DayNumber(d) - DayNumber(s));
    WeekBounds(e);
    DayNumberInjective(EndOfWeek(e), EndOfWeek(d));
  }

  /**
   * The start of the month is the date `day - 1` days earlier, and no date of the month comes
   * before it.
   */
  lemma StartOfMonthIsFirst(d: CivilDate)
    ensures StartOfMonth(d) == AddDays(d, 1 - d.day)
    ensures forall c: CivilDate :: c.year == d.year && c.month == d.month ==>
      DayNumber(StartOfMonth(d)) <= DayNumber(c)
  {
    DayNumberInjective(StartOfMonth(d), AddDays(d, 1 - d.day));
  }

  /** The days of the month are exactly the dates of that month, in increasing order. */
  lemma DatesInMonthContents(d: CivilDate)
    ensures forall i :: 0 <= i < |DatesInMonth(d)| ==>
      DatesInMonth(d)[i] == Date(d.year, d.month, i + 1)
    ensures forall c: CivilDate :: c in DatesInMonth(d) <==> c.year == d.year && c.month == d.month
    ensures forall i :: 0 <= i < |DatesInMonth(d)| - 1 ==>
      DayNumber(DatesInMonth(d)[i + 1]) == DayNumber(DatesInMonth(d)[i]) + 1
  {
    var s := DatesInMonth(d);
    forall c: CivilDate | c.year == d.year && c.month == d.month
      ensures c in s
    {
      assert s[c.day - 1] == c;
    }
    forall i | 0 <= i < |s| - 1
      ensures DayNumber(s[i + 1]) == DayNumber(s[i]) + 1
    {
      assert s[i + 1] == NextDay(s[i]);
    }
  }
}
