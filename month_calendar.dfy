/**
 * The month grid: the cells derived from the focus date (leading blanks, then every day of the
 * month, in rows of seven), the roving tabindex over them, the focus-follow step and the
 * column headers.
 */
module MonthCalendar {
  import opened Options
  import opened CivilDates
  import Dom

  /** A grid cell: a blank (`undefined`) or a day of the displayed month. */
  type Cell = Option<CivilDate>

  /** ramda `repeat(x, n)`. */
  function Repeat<T>(x: T, n: nat): (s: seq<T>)
    ensures |s| == n && forall i :: 0 <= i < n ==> s[i] == x
  {
    seq(n, _ => x)
  }

  /** ramda `splitEvery(n, s)`: consecutive chunks of `n`, the last one possibly shorter. */
  function SplitEvery<T>(n: nat, s: seq<T>): seq<seq<T>>
    requires n > 0
    decreases |s|
  {
    if |s| == 0 then []
    else if |s| <= n then [s]
    else [s[..n]] + SplitEvery(n, s[n..])
  }

  function Flatten<T>(rows: seq<seq<T>>): seq<T> {
    if rows == [] then [] else rows[0] + Flatten(rows[1..])
  }

  /** The `focus` prop, else the enclosing calendar's focus, else the current date. */
  function GridFocus(prop: Option<CivilDate>, calendarFocus: Option<CivilDate>, today: CivilDate): CivilDate {
    prop.GetOr(calendarFocus.GetOr(today))
  }

  function Present(days: seq<CivilDate>): (s: seq<Cell>)
    ensures |s| == |days| && forall i :: 0 <= i < |days| ==> s[i] == Some(days[i])
  {
    seq(|days|, (i: nat) requires i < |days| => Some(days[i]))
  }

  /** `days`: one blank per weekday before the 1st, then each day of the focus month. */
  function Cells(focus: CivilDate): seq<Cell> {
    Repeat(None, Weekday(StartOfMonth(focus))) + Present(DatesInMonth(focus))
  }

  /** `table`: the cells in rows of seven. */
  function Table(focus: CivilDate): seq<seq<Cell>> {
    SplitEvery(7, Cells(focus))
  }

  /** `isSameDay(day, focus)`. */
  predicate SameDay(a: CivilDate, b: CivilDate) {
    a.year == b.year && a.month == b.month && a.day == b.day
  }

  /** The tabIndex a cell gets: 0 for the focus day, -1 for every other day and every blank. */
  function TabIndex(cell: Cell, focus: CivilDate): int {
    match cell
    case None => -1
    case Some(day) => if SameDay(day, focus) then 0 else -1
  }

  /** Position of the focus date among the cells. */
  function FocusPosition(focus: CivilDate): nat {
    Weekday(StartOfMonth(focus)) + focus.day - 1
  }

  function CountTabIndex(cells: seq<Cell>, focus: CivilDate, t: int): nat {
    if cells == [] then 0
    else (if TabIndex(cells[0], focus) == t then 1 else 0) + CountTabIndex(cells[1..], focus, t)
  }

  /** `context.ref?.current?.contains(document.activeElement)`, false before the table is mounted. */
  predicate FocusWithinTable(table: Option<set<Dom.Handle>>, active: Dom.Handle) {
    table.Some? && active in table.value
  }

  /**
   * The ref callback of the tabIndex-0 cell `focusCell`, one of the cells of the mounted table
   * whose elements are `table` (`None` before the table is mounted): when the table contained
   * the active element at render time, the cell is focused; otherwise focus stays where it was.
   */
  method FollowFocus(page: Dom.Page, table: Option<set<Dom.Handle>>, focusCell: Dom.Handle)
    requires table.Some? ==> focusCell in table.value
    modifies page
    ensures page.active == if FocusWithinTable(table, old(page.active)) then focusCell else old(page.active)
    ensures FocusWithinTable(table, old(page.active)) ==> FocusWithinTable(table, page.active)
  {
    var isFocusWithinTable := FocusWithinTable(table, page.active);
    if isFocusWithinTable {
      page.Focus(focusCell);
    }
  }

  /** The seven column-header days: `startOfWeek(today)` plus 0..6 days. */
  function ColumnHeaderDays(today: CivilDate): seq<CivilDate> {
    seq(7, (i: nat) requires i < 7 => AddDays(StartOfWeek(today), i))
  }

  /** date-fns `format(day, "EEEE")`, the full weekday name used as each header's `abbr`. */
  function WeekdayName(w: int): string
    requires 0 <= w < 7
  {
    ["Sunday", "Monday", "Tuesday", "Wednesday", "Thursday", "Friday", "Saturday"][w]
  }

  function ColumnHeaderNames(today: CivilDate): seq<string> {
    seq(7, (i: nat) requires i < 7 => WeekdayName(Weekday(ColumnHeaderDays(today)[i])))
  }

  // ---------------------------------------------------------------------------
  // splitEvery

  /** Concatenating the rows gives back the list. */
  lemma {:induction false} SplitEveryFlatten<T>(n: nat, s: seq<T>)
    requires n > 0
    ensures Flatten(SplitEvery(n, s)) == s
    decreases |s|
  {
    if |s| > n {
      SplitEveryFlatten(n, s[n..]);
      assert s == s[..n] + s[n..];
    }
  }

  /** Every row has `n` cells except the last, which has between one and `n` (no padding). */
  lemma {:induction false} SplitEveryRows<T>(n: nat, s: seq<T>)
    requires n > 0
    ensures forall r :: 0 <= r < |SplitEvery(n, s)| - 1 ==> |SplitEvery(n, s)[r]| == n
    ensures |SplitEvery(n, s)| > 0 ==> 1 <= |SplitEvery(n, s)[|SplitEvery(n, s)| - 1]| <= n
    ensures |SplitEvery(n, s)| == 0 <==> |s| == 0
    decreases |s|
  {
    if |s| > n {
      SplitEveryRows(n, s[n..]);
    }
  }

  /** Where row `r` starts: `n` cells per earlier row. */
  function RowStart(n: nat, r: nat): nat {
    if r == 0 then 0 else RowStart(n, r - 1) + n
  }

  lemma {:induction false} RowStartIsProduct(n: nat, r: nat)
    ensures RowStart(n, r) == n * r
  {
    if r > 0 {
      RowStartIsProduct(n, r - 1);
      assert n * r == n * (r - 1) + n;
    }
  }

  lemma {:induction false} SplitEveryRowFrom<T>(n: nat, s: seq<T>, r: nat)
    requires n > 0 && RowStart(n, r) < |s|
    ensures r < |SplitEvery(n, s)|
    ensures SplitEvery(n, s)[r] == s[RowStart(n, r) .. Min(RowStart(n, r) + n, |s|)]
    decreases r
  {
    if r > 0 {
      var m := RowStart(n, r - 1);
      var rest := s[n..];
      SplitEveryRowFrom(n, rest, r - 1);
      assert SplitEvery(n, s) == [s[..n]] + SplitEvery(n, rest);
      assert rest[m .. Min(m + n, |rest|)] == s[m + n .. Min(m + n + n, |s|)];
    }
  }

  /** Row `r` holds exactly the next `n` cells after the first `n * r`. */
  lemma SplitEveryRow<T>(n: nat, s: seq<T>, r: nat)
    requires n > 0 && n * r < |s|
    ensures r < |SplitEvery(n, s)|
    ensures SplitEvery(n, s)[r] == s[n * r .. Min(n * r + n, |s|)]
  {
    RowStartIsProduct(n, r);
    SplitEveryRowFrom(n, s, r);
  }

  /** Cell `k` of the list is at row `k / n`, column `k % n`. */
  lemma SplitEveryPosition<T>(n: nat, s: seq<T>, k: nat)
    requires n > 0 && k < |s|
    ensures k / n < |SplitEvery(n, s)| && k % n < |SplitEvery(n, s)[k / n]|
    ensures SplitEvery(n, s)[k / n][k % n] == s[k]
  {
    var r, c := k / n, k % n;
    assert k == n * r + c;
    SplitEveryRow(n, s, r);
  }

  /** The cell at row `r`, column `c` is list cell `n * r + c`. */
  lemma SplitEveryCell<T>(n: nat, s: seq<T>, r: nat, c: nat)
    requires n > 0 && r < |SplitEvery(n, s)| && c < |SplitEvery(n, s)[r]|
    ensures n * r + c < |s| && SplitEvery(n, s)[r][c] == s[n * r + c]
  {
    SplitEveryRows(n, s);
    if n * r >= |s| {
      SplitEveryFirstRows(n, s, r);
    }
    SplitEveryRow(n, s, r);
  }

  lemma {:induction false} SplitEveryFirstRows<T>(n: nat, s: seq<T>, r: nat)
    requires n > 0 && r < |SplitEvery(n, s)|
    ensures n * r < |s|
    decreases r
  {
    if r > 0 {
      assert |s| > n;
      SplitEveryFirstRows(n, s[n..], r - 1);
      assert n * r == n * (r - 1) + n;
    }
  }

  // ---------------------------------------------------------------------------
  // The cells

  /** Blanks for the weekday of the 1st, then every day of the month in order. */
  lemma CellsLayout(focus: CivilDate)
    ensures |Cells(focus)| == Weekday(StartOfMonth(focus)) + DaysInMonth(focus.year, focus.month)
    ensures forall i :: 0 <= i < Weekday(StartOfMonth(focus)) ==> Cells(focus)[i] == None
    ensures forall i :: Weekday(StartOfMonth(focus)) <= i < |Cells(focus)| ==>
      Cells(focus)[i] == Some(Date(focus.year, focus.month, i - Weekday(StartOfMonth(focus)) + 1))
  {
    DatesInMonthContents(focus);
  }

  /** The table depends only on the focus date's year and month. */
  lemma TableOnlyDependsOnMonth(a: CivilDate, b: CivilDate)
    requires a.year == b.year && a.month == b.month
    ensures Table(a) == Table(b)
  {
  }

  /** Roving tabindex: exactly the focus day's cell has tabIndex 0; every other cell has -1. */
  lemma RovingTabIndex(focus: CivilDate)
    ensures FocusPosition(focus) < |Cells(focus)|
    ensures Cells(focus)[FocusPosition(focus)] == Some(focus)
    ensures forall k :: 0 <= k < |Cells(focus)| ==>
      (TabIndex(Cells(focus)[k], focus) == 0 <==> k == FocusPosition(focus))
    ensures forall k :: 0 <= k < |Cells(focus)| ==>
      TabIndex(Cells(focus)[k], focus) == 0 || TabIndex(Cells(focus)[k], focus) == -1
  {
    CellsLayout(focus);
  }

  lemma {:induction false} CountSplit(cells: seq<Cell>, focus: CivilDate, t: int, k: nat)
    requires k < |cells|
    requires forall i :: 0 <= i < |cells| && i != k ==> TabIndex(cells[i], focus) != t
    requires TabIndex(cells[k], focus) == t
    ensures CountTabIndex(cells, focus, t) == 1
    decreases |cells|
  {
    if k == 0 {
      CountNone(cells[1..], focus, t);
    } else {
      CountSplit(cells[1..], focus, t, k - 1);
    }
  }

  lemma {:induction false} CountNone(cells: seq<Cell>, focus: CivilDate, t: int)
    requires forall i :: 0 <= i < |cells| ==> TabIndex(cells[i], focus) != t
    ensures CountTabIndex(cells, focus, t) == 0
    decreases |cells|
  {
    if cells != [] {
      CountNone(cells[1..], focus, t);
    }
  }

  lemma {:induction false} CountBoth(cells: seq<Cell>, focus: CivilDate)
    ensures CountTabIndex(cells, focus, 0) + CountTabIndex(cells, focus, -1) == |cells|
    decreases |cells|
  {
    if cells != [] {
      CountBoth(cells[1..], focus);
    }
  }

  /** One cell is in the tab sequence; all others, blanks included, have tabIndex -1. */
  lemma TabIndexCounts(focus: CivilDate)
    ensures CountTabIndex(Cells(focus), focus, 0) == 1
    ensures CountTabIndex(Cells(focus), focus, -1) == |Cells(focus)| - 1
  {
    RovingTabIndex(focus);
    CountSplit(Cells(focus), focus, 0, FocusPosition(focus));
    CountBoth(Cells(focus), focus);
  }

  /** In the table, the focus day sits at row `p / 7`, column `p % 7`, and only it has tabIndex 0. */
  lemma TableTabIndex(focus: CivilDate)
    ensures var t, p := Table(focus), FocusPosition(focus);
      p / 7 < |t| && p % 7 < |t[p / 7]| && t[p / 7][p % 7] == Some(focus)
    ensures var t, p := Table(focus), FocusPosition(focus);
      forall r, c :: 0 <= r < |t| && 0 <= c < |t[r]| ==> (TabIndex(t[r][c], focus) == 0 <==> 7 * r + c == p)
  {
    var t, p := Table(focus), FocusPosition(focus);
    RovingTabIndex(focus);
    SplitEveryPosition(7, Cells(focus), p);
    forall r, c | 0 <= r < |t| && 0 <= c < |t[r]|
      ensures TabIndex(t[r][c], focus) == 0 <==> 7 * r + c == p
    {
      SplitEveryCell(7, Cells(focus), r, c);
    }
  }

  /** The column-header days are a Sunday through the following Saturday. */
  lemma ColumnHeaderWeekdays(today: CivilDate)
    ensures forall i :: 0 <= i < 7 ==> Weekday(ColumnHeaderDays(today)[i]) == i
  {
    var days := ColumnHeaderDays(today);
    forall i | 0 <= i < 7
      ensures Weekday(days[i]) == i
    {
      assert days[i] == AddDays(StartOfWeek(today), i);
      WeekdayInWeek(today, i);
    }
  }

  /** The column headers read Sunday through Saturday. */
  lemma ColumnHeaderOrder(today: CivilDate)
    ensures ColumnHeaderNames(today)
      == ["Sunday", "Monday", "Tuesday", "Wednesday", "Thursday", "Friday", "Saturday"]
  {
    ColumnHeaderWeekdays(today);
    var names := ColumnHeaderNames(today);
    forall i | 0 <= i < 7
      ensures names[i] == WeekdayName(i)
    {
    }
  }
}
