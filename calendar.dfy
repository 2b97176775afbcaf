/**
 * The calendar's date-focus state: the reducer over navigation actions, the keyboard map that
 * feeds it, and the `Calendar` root whose focus each dispatch replaces.
 */
module Calendar {
  import opened Options
  import opened CivilDates

  datatype Control = Previous | Next | StartOf | EndOf
  datatype Unit = Year | Month | Week | Day

  /** `${Control} ${Unit}`: sixteen action names, ten of which the reducer acts on. */
  datatype Action = Action(control: Control, unit: Unit)

  const PreviousYear := Action(Previous, Year)
  const NextYear := Action(Next, Year)
  const PreviousMonth := Action(Previous, Month)
  const NextMonth := Action(Next, Month)
  const PreviousWeek := Action(Previous, Week)
  const NextWeek := Action(Next, Week)
  const PreviousDayAction := Action(Previous, Day)
  const NextDayAction := Action(Next, Day)
  const StartOfWeekAction := Action(StartOf, Week)
  const EndOfWeekAction := Action(EndOf, Week)

  /** The ten actions the reducer has a branch for. */
  predicate Handled(a: Action) {
    a.control in {Previous, Next} || a.unit == Week
  }

  /** The reducer: the focus date an action leads to. */
  function Reduce(date: CivilDate, action: Action): CivilDate {
    match action
    case Action(Previous, Month) => AddMonths(date, -1)
    case Action(Next, Month) => AddMonths(date, 1)
    case Action(Previous, Year) => AddMonths(date, -12)
    case Action(Next, Year) => AddMonths(date, 12)
    case Action(Next, Week) => AddDays(date, 7)
    case Action(Previous, Week) => AddDays(date, -7)
    case Action(Next, Day) => AddDays(date, 1)
    case Action(Previous, Day) => AddDays(date, -1)
    case Action(StartOf, Week) => StartOfWeek(date)
    case Action(EndOf, Week) => EndOfWeek(date)
    case _ => date
  }

  /** The keymap: the action a key press dispatches, the conditions checked in this order. */
  function Keymap(key: string, shiftKey: bool): Option<Action> {
    if shiftKey && key == "PageUp" then Some(PreviousYear)
    else if shiftKey && key == "PageDown" then Some(NextYear)
    else if key == "PageUp" then Some(PreviousMonth)
    else if key == "PageDown" then Some(NextMonth)
    else if key == "ArrowDown" then Some(NextWeek)
    else if key == "ArrowUp" then Some(PreviousWeek)
    else if key == "ArrowLeft" then Some(PreviousDayAction)
    else if key == "ArrowRight" then Some(NextDayAction)
    else if key == "Home" then Some(StartOfWeekAction)
    else if key == "End" then Some(EndOfWeekAction)
    else None
  }

  /** The focus after a key press: the mapped action's result, or unchanged. */
  function AfterKey(date: CivilDate, key: string, shiftKey: bool): CivilDate {
    match Keymap(key, shiftKey)
    case Some(a) => Reduce(date, a)
    case None => date
  }

  // ---------------------------------------------------------------------------
  // The reducer

  /** previous/next month: one calendar month back or forward, day clamped to the target month. */
  lemma ReduceMonthStep(d: CivilDate)
    ensures MonthIndex(Reduce(d, NextMonth)) == MonthIndex(d) + 1
    ensures MonthIndex(Reduce(d, PreviousMonth)) == MonthIndex(d) - 1
    ensures Reduce(d, NextMonth).day
      == Min(d.day, DaysInMonth(Reduce(d, NextMonth).year, Reduce(d, NextMonth).month))
    ensures Reduce(d, PreviousMonth).day
      == Min(d.day, DaysInMonth(Reduce(d, PreviousMonth).year, Reduce(d, PreviousMonth).month))
  {
  }

  /** previous/next year: same month one year away, day clamped (29 February becomes the 28th). */
  lemma ReduceYearStep(d: CivilDate)
    ensures Reduce(d, NextYear) == Date(d.year + 1, d.month, Min(d.day, DaysInMonth(d.year + 1, d.month)))
    ensures Reduce(d, PreviousYear) == Date(d.year - 1, d.month, Min(d.day, DaysInMonth(d.year - 1, d.month)))
  {
    AddTwelveMonths(d, 1);
    AddTwelveMonths(d, -1);
  }

  lemma LeapDayNextYear()
    ensures Reduce(Date(2024, 2, 29), NextYear) == Date(2025, 2, 28)
    ensures Reduce(Date(2024, 2, 29), PreviousYear) == Date(2023, 2, 28)
  {
    ReduceYearStep(Date(2024, 2, 29));
  }

  /** previous/next week and day move by seven and by one day. */
  lemma ReduceDayWeekStep(d: CivilDate)
    ensures DayNumber(Reduce(d, NextWeek)) == DayNumber(d) + 7
    ensures DayNumber(Reduce(d, PreviousWeek)) == DayNumber(d) - 7
    ensures DayNumber(Reduce(d, NextDayAction)) == DayNumber(d) + 1
    ensures DayNumber(Reduce(d, PreviousDayAction)) == DayNumber(d) - 1
  {
  }

  /** next day / previous day, and next week / previous week, undo each other. */
  lemma ReduceStepsRoundTrip(d: CivilDate)
    ensures Reduce(Reduce(d, NextDayAction), PreviousDayAction) == d
    ensures Reduce(Reduce(d, PreviousDayAction), NextDayAction) == d
    ensures Reduce(Reduce(d, NextWeek), PreviousWeek) == d
    ensures Reduce(Reduce(d, PreviousWeek), NextWeek) == d
  {
    AddDaysRoundTrip(d, 1);
    AddDaysRoundTrip(d, -1);
    AddDaysRoundTrip(d, 7);
    AddDaysRoundTrip(d, -7);
  }

  /** start/end of week: the Sunday and the Saturday of the week holding the date. */
  lemma ReduceWeekBounds(d: CivilDate)
    ensures Weekday(Reduce(d, StartOfWeekAction)) == 0
    ensures Weekday(Reduce(d, EndOfWeekAction)) == 6
    ensures DayNumber(Reduce(d, StartOfWeekAction)) <= DayNumber(d) <= DayNumber(Reduce(d, EndOfWeekAction))
    ensures DayNumber(Reduce(d, EndOfWeekAction)) == DayNumber(Reduce(d, StartOfWeekAction)) + 6
  {
    WeekBounds(d);
  }

  /** Pressing Home (or End) twice is the same as pressing it once. */
  lemma ReduceWeekBoundsIdempotent(d: CivilDate)
    ensures Reduce(Reduce(d, StartOfWeekAction), StartOfWeekAction) == Reduce(d, StartOfWeekAction)
    ensures Reduce(Reduce(d, EndOfWeekAction), EndOfWeekAction) == Reduce(d, EndOfWeekAction)
  {
    WeekBounds(d);
    SameWeek(d, StartOfWeek(d));
    SameWeek(d, EndOfWeek(d));
  }

  /** Actions without a branch leave the date as it is. */
  lemma ReduceUnhandledIsIdentity(d: CivilDate, a: Action)
    requires !Handled(a)
    ensures Reduce(d, a) == d
  {
  }

  /** Up to the 28th, where no month clamps the day, two next-month steps are one two-month step. */
  lemma TwoNextMonthsFromMidMonth(d: CivilDate)
    requires d.day <= 28
    ensures Reduce(Reduce(d, NextMonth), NextMonth) == AddMonths(d, 2)
  {
    AddMonthsCompose(d, 1, 1);
  }

  /** From the 31st the clamp is not undone: two steps differ from one two-month step. */
  lemma TwoNextMonthsFromMonthEnd()
    ensures Reduce(Reduce(Date(1970, 1, 31), NextMonth), NextMonth) == Date(1970, 3, 28)
    ensures AddMonths(Date(1970, 1, 31), 2) == Date(1970, 3, 31)
  {
  }

  // ---------------------------------------------------------------------------
  // The keymap

  /** Shift with PageUp/PageDown selects the year step; without Shift the month step. */
  lemma KeymapPages(shiftKey: bool)
    ensures Keymap("PageUp", shiftKey) == Some(if shiftKey then PreviousYear else PreviousMonth)
    ensures Keymap("PageDown", shiftKey) == Some(if shiftKey then NextYear else NextMonth)
  {
  }

  /** Arrow keys and Home/End dispatch the same action with or without Shift. */
  lemma KeymapIgnoresShift(key: string)
    requires key != "PageUp" && key != "PageDown"
    ensures Keymap(key, true) == Keymap(key, false)
  {
  }

  /** Exactly the eight navigation keys dispatch (ten bindings with Shift on the page keys), each to an action the reducer handles. */
  lemma KeymapDomain(key: string, shiftKey: bool)
    ensures Keymap(key, shiftKey).Some? <==>
      key in ["PageUp", "PageDown", "ArrowDown", "ArrowUp", "ArrowLeft", "ArrowRight", "Home", "End"]
    ensures Keymap(key, shiftKey).Some? ==> Handled(Keymap(key, shiftKey).value)
  {
  }

  /** Every handled action is reached by some key. */
  lemma KeymapCoversHandled(a: Action)
    requires Handled(a)
    ensures exists key, shiftKey :: Keymap(key, shiftKey) == Some(a)
  {
    match a
    case Action(Previous, Year) => assert Keymap("PageUp", true) == Some(a);
    case Action(Next, Year) => assert Keymap("PageDown", true) == Some(a);
    case Action(Previous, Month) => assert Keymap("PageUp", false) == Some(a);
    case Action(Next, Month) => assert Keymap("PageDown", false) == Some(a);
    case Action(Previous, Week) => assert Keymap("ArrowUp", false) == Some(a);
    case Action(Next, Week) => assert Keymap("ArrowDown", false) == Some(a);
    case Action(Previous, Day) => assert Keymap("ArrowLeft", false) == Some(a);
    case Action(Next, Day) => assert Keymap("ArrowRight", false) == Some(a);
    case Action(StartOf, Week) => assert Keymap("Home", false) == Some(a);
    case Action(EndOf, Week) => assert Keymap("End", false) == Some(a);
  }

  // ---------------------------------------------------------------------------
  // The calendar root

  /** The `Calendar` component: its reducer state and the dispatches it has received. */
  class Calendar {
    var focus: CivilDate
    ghost var dispatched: seq<Action>

    /** Seeded with `value` when given, otherwise with the current date `today`. */
    constructor (value: Option<CivilDate>, today: CivilDate)
      ensures focus == value.GetOr(today)
      ensures dispatched == []
    {
      focus := value.GetOr(today);
      dispatched := [];
    }

    /** `dispatch`: the reducer replaces the focus and nothing else. */
    method Dispatch(a: Action)
      modifies this
      ensures focus == Reduce(old(focus), a)
      ensures dispatched == old(dispatched) + [a]
    {
      focus := Reduce(focus, a);
      dispatched := dispatched + [a];
    }

    /** The window `keydown` listener: dispatch what the keymap gives, if anything. */
    method OnKeyDown(key: string, shiftKey: bool)
      modifies this
      ensures focus == AfterKey(old(focus), key, shiftKey)
      ensures dispatched == old(dispatched) + (match Keymap(key, shiftKey) case Some(a) => [a] case None => [])
    {
      var a := Keymap(key, shiftKey);
      if a.Some? {
        Dispatch(a.value);
      }
    }

    /** A `Calendar.Button` click: its own action, dispatched once. */
    method ButtonClick(action: Action)
      modifies this
      ensures focus == Reduce(old(focus), action)
      ensures dispatched == old(dispatched) + [action]
    {
      Dispatch(action);
    }

    /** A `Calendar.Button` keydown: dispatches its action only for the key named "Space". */
    method ButtonKeyDown(action: Action, key: string)
      modifies this
      ensures focus == if key == "Space" then Reduce(old(focus), action) else old(focus)
      ensures dispatched == old(dispatched) + (if key == "Space" then [action] else [])
    {
      if key == "Space" {
        Dispatch(action);
      }
    }
  }
}
