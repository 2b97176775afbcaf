/** The calendar and its month grid together, on the dates the integration scenarios use. */
module CalendarScenarios {
  import opened Options
  import opened CivilDates
  import Cal = Calendar
  import opened MonthCalendar

  /** January 1970 starts on a Thursday: four blanks, the 1st at index 4, the 31st last of 35. */
  lemma January1970Cells()
    ensures Weekday(Date(1970, 1, 1)) == 4
    ensures |Cells(Date(1970, 1, 1))| == 35
    ensures Cells(Date(1970, 1, 1))[4] == Some(Date(1970, 1, 1))
    ensures Cells(Date(1970, 1, 1))[34] == Some(Date(1970, 1, 31))
    ensures |Table(Date(1970, 1, 1))| == 5
  {
    CellsLayout(Date(1970, 1, 1));
    SplitEveryRows(7, Cells(Date(1970, 1, 1)));
    SplitEveryPosition(7, Cells(Date(1970, 1, 1)), 34);
  }

  /** February 1970 starts on a Sunday: no blanks, the 28th last. */
  lemma February1970Cells()
    ensures Weekday(Date(1970, 2, 1)) == 0
    ensures |Cells(Date(1970, 2, 1))| == 28
    ensures Cells(Date(1970, 2, 1))[0] == Some(Date(1970, 2, 1))
    ensures Cells(Date(1970, 2, 1))[27] == Some(Date(1970, 2, 28))
  {
    CellsLayout(Date(1970, 2, 1));
  }

  /** January 1971 starts on a Friday: the 1st at index 5, the 31st last. */
  lemma January1971Cells()
    ensures Weekday(Date(1971, 1, 1)) == 5
    ensures |Cells(Date(1971, 1, 1))| == 36
    ensures Cells(Date(1971, 1, 1))[5] == Some(Date(1971, 1, 1))
    ensures Cells(Date(1971, 1, 1))[35] == Some(Date(1971, 1, 31))
  {
    assert DayNumber(Date(1971, 1, 1)) == 365;
    CellsLayout(Date(1971, 1, 1));
  }

  /** Focused on 1970-01-01, one cell is in the tab sequence and 34 cells have tabIndex -1. */
  lemma January1970TabIndex(focus: CivilDate)
    requires focus == Date(1970, 1, 1)
    ensures CountTabIndex(Cells(focus), focus, 0) == 1
    ensures CountTabIndex(Cells(focus), focus, -1) == 34
  {
    January1970Cells();
    TabIndexCounts(focus);
  }

  /** Next month from 1970-01-01 is 1970-02-01, and previous month returns. */
  lemma MonthStepsFromEpoch()
    ensures Cal.Reduce(Epoch, Cal.NextMonth) == Date(1970, 2, 1)
    ensures Cal.Reduce(Date(1970, 2, 1), Cal.PreviousMonth) == Epoch
  {
    assert MonthIndex(Epoch) == 23640;
  }

  /** Next year from 1970-01-01 is 1971-01-01, and previous year returns. */
  lemma YearStepsFromEpoch()
    ensures Cal.Reduce(Epoch, Cal.NextYear) == Date(1971, 1, 1)
    ensures Cal.Reduce(Date(1971, 1, 1), Cal.PreviousYear) == Epoch
  {
    Cal.ReduceYearStep(Epoch);
    Cal.ReduceYearStep(Date(1971, 1, 1));
  }

  /** PageDown then PageUp from 1970-01-01: February 1970, then back. */
  lemma MonthKeysFromEpoch()
    ensures Cal.AfterKey(Epoch, "PageDown", false) == Date(1970, 2, 1)
    ensures Cal.AfterKey(Date(1970, 2, 1), "PageUp", false) == Epoch
  {
    Cal.KeymapPages(false);
    MonthStepsFromEpoch();
  }

  /** Shift+PageDown then Shift+PageUp from 1970-01-01: January 1971, then back. */
  lemma YearKeysFromEpoch()
    ensures Cal.AfterKey(Epoch, "PageDown", true) == Date(1971, 1, 1)
    ensures Cal.AfterKey(Date(1971, 1, 1), "PageUp", true) == Epoch
  {
    Cal.KeymapPages(true);
    YearStepsFromEpoch();
  }

  /** The date the grid shows inside a calendar that has no `focus` prop of its own. */
  lemma GridShowsCalendarFocus(focus: CivilDate, today: CivilDate)
    ensures GridFocus(None, Some(focus), today) == focus
  {
  }

  /** A calendar seeded with 1970-01-01: next month, then previous month. */
  method MonthButtonsScenario(today: CivilDate) {
    var calendar := new Cal.Calendar(Some(Epoch), today);
    MonthStepsFromEpoch();
    calendar.ButtonClick(Cal.NextMonth);
    assert calendar.focus == Date(1970, 2, 1);
    calendar.ButtonClick(Cal.PreviousMonth);
    assert calendar.focus == Epoch;
  }

  /** A calendar seeded with 1970-01-01: next year, then previous year. */
  method YearButtonsScenario(today: CivilDate) {
    var calendar := new Cal.Calendar(Some(Epoch), today);
    YearStepsFromEpoch();
    calendar.ButtonClick(Cal.NextYear);
    assert calendar.focus == Date(1971, 1, 1);
    calendar.ButtonClick(Cal.PreviousYear);
    assert calendar.focus == Epoch;
  }
}
