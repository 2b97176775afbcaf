# Accessible widget cores, modelled in Dafny

This project models the behaviour of five widgets from a React component library:

- the single-expand **accordion**;
- the **calendar**: its date reducer, its keymap and its buttons;
- the **month grid**: cells, rows, roving tabindex and column headers;
- the **dialog focus trap**;
- the **breadcrumb** trail.

The model keeps each source file's own form, and proves what the widgets promise.

- **Pure parts become functions.** These are the reducer, the keymap, the grid layout, the ARIA attribute and id rules, and the breadcrumb layout. Lemmas state their properties.
- **Parts that change state become classes.** Their methods carry `modifies` clauses:
  - `Accordion.Single` holds the `expand` state;
  - `Calendar.Calendar` holds the `useReducer` focus;
  - `Dialog.FocusTrap` moves focus and records the callbacks it invokes;
  - `Dom.Page` holds `document.activeElement`.
- **Loops stay loops.** The two `Children` passes of the accordion and the dialog's backdrop scan are `while` loops. Each is proved against a specification function.

Dates are civil dates (year, month, day). They are checked against the Gregorian calendar and counted as day numbers from 1970-01-01. The date-fns operations the widgets use are modelled on these dates:

- `add`/`sub` of days, weeks, months and years (months clamp the day of the month);
- `startOfWeek` and `endOfWeek` with Sunday as the first day;
- `startOfMonth`;
- `eachDayOfInterval` over a month;
- `getDay`.

JavaScript's `%` (the remainder takes the sign of the dividend), `Array.prototype.at` and `indexOf` are in module `JavaScript`.

Where the written design and the code differ, the model follows the code:

- **Actions.** The calendar's `Action` type is the template type `` `${Control} ${Unit}` ``, which has 16 values, not 10. The reducer handles ten of them and returns the date unchanged for the other six (`Calendar.ReduceUnhandledIsIdentity`).
- **Last grid row.** The grid is `splitEvery(7, …)` with no trailing padding, so its last row can be shorter than 7 cells (`MonthCalendar.SplitEveryRows`).
- **Month steps.** Two "next month" steps are not one two-month shift. From 1970-01-31 they give 1970-03-28; `add(…, {months: 2})` gives 1970-03-31 (`Calendar.TwoNextMonthsFromMonthEnd`).
- **Shift+Tab.** This is `tabbables.at((index - 1) % n)` with JavaScript's `%`. The remainder is negative whenever `index - 1` is, which the design says never happens; `at` then counts from the end.
  - The element reached is still the one `(index - 1 + n) mod n` names, for every index (`Dialog.ShiftTabWrapsAround`).
  - So from a focused element inside the dialog that is not tabbable (`indexOf` gives -1), Shift+Tab goes to the second-to-last tabbable (`Dialog.CycleFromUntabbable`).
- **The dialog's `aria-describedby`** is always set, not optional.
- **Accordion item ids.** An `Accordion.Item` whose `id` prop is passed as `undefined` is collected with a generated id (`??`), but the `{ id: ids.shift(), ...element.props }` spread copies the `undefined` back over it. That item renders with no id: it is open exactly while nothing is expanded, and toggling it empties the group even without `collapse` (`Accordion.UndefinedIdItem`). The never-empty and at-most-one-open properties hold for items that render with an id, and for distinct rendered ids.
- **Calendar button keys.** `Calendar.Button`'s keydown handler compares `event.key` with "Space". Browsers report the space bar's `key` as " ", so as written this branch does not fire; the native button click on Space dispatches the action instead (`Calendar.Calendar.ButtonClick`). The model keeps the comparison as written.
- **Enter on an accordion header.** The header's own key handler reacts to Space only. Enter reaches the toggle through the native button click, modelled as `Accordion.Single.SetExpand`.

## Model

| member | source | states |
|---|---|---|
| Strings.NatToString | packages/accordion/Accordion.tsx:130 | the decimal rendering of an index is non-empty, all digits, one digit exactly for indices below 10 |
| Strings.NatToStringInjective | packages/accordion/Accordion.tsx:130 | different indices render as different strings |
| Dom.Page.Focus | packages/dialog/Dialog.tsx:66-68 | `focus()` makes the element the active element |
| Accordion.CollectIds | packages/accordion/Accordion.tsx:127-132 | the push loop yields one id per Item child, in order: its own `id`, else the prefix followed by its index (`ItemIds`) |
| Accordion.AssignIds | packages/accordion/Accordion.tsx:148-154 | the `ids.shift()` pass leaves other children untouched, gives every Item without an `id` prop exactly the id collected for it and keeps a given string id; an `id` passed as `undefined` wins over the queued id |
| Accordion.Single.constructor | packages/accordion/Accordion.tsx:125-134 | on mount the ids are `ItemIds` and the expanded id is the first of them; the state is valid |
| Accordion.Single.SetExpand | packages/accordion/Accordion.tsx:136-144 | the new `expand` follows the collapse/non-collapse policy; validity is preserved for toggles of known ids |
| Accordion.Single.HeaderKeyDown | packages/accordion/Accordion.tsx:70-78 | Space on the focused header button prevents the default and toggles; any other key or focus leaves `expand` unchanged |
| Accordion.InitialExpand | packages/accordion/Accordion.tsx:127-134 | the initially expanded id is the first Item child's own id; with no Item child nothing is expanded |
| Accordion.GeneratedIdsDistinct | packages/accordion/Accordion.tsx:125-132 | without string `id` props, the generated `prefix + index` ids are pairwise distinct |
| Accordion.CollapsibleToggle | packages/accordion/Accordion.tsx:137-139 | with `collapse`, toggling empties the group exactly when the toggled item was expanded, and otherwise expands that item |
| Accordion.NonCollapsibleToggle | packages/accordion/Accordion.tsx:141-143 | without `collapse`, a toggle always leaves the toggled item expanded, and toggling the expanded item changes nothing |
| Accordion.NonCollapsibleNeverEmpty | packages/accordion/Accordion.tsx:136-144 | without `collapse`, no sequence of toggles of items that render with an id empties a group that has an expanded item or sees a toggle |
| Accordion.CollapsibleToggleTwice | packages/accordion/Accordion.tsx:137-139 | with `collapse`, toggling the same item twice leaves it expanded if it was expanded, and nothing expanded otherwise |
| Accordion.AtMostOneOpen | packages/accordion/Accordion.tsx:52 | with distinct rendered ids (at most one `undefined`), at most one item is open |
| Accordion.HeaderPanelWiring | packages/accordion/Accordion.tsx:48-52 | the header's `aria-controls` is the panel id and the panel's `aria-labelledby` the header id; `aria-expanded`, role `region` and rendered content hold iff the item is expanded |
| Accordion.UndefinedIdItem | packages/accordion/Accordion.tsx:48-53 | an Item whose `id` is `undefined` renders with no id, is open exactly while nothing is expanded, gets the ids "undefinedcontrols" and "undefinedlabelledby", and its toggle empties the group under either policy |
| Accordion.AriaIdsDistinct | packages/accordion/Accordion.tsx:48-51 | the `controls` and `labelledby` ids of two different items are four different strings |
| CivilDates.DaysInMonth | packages/calendar/Calendar.tsx:19-30 | a month has 28 to 31 days; February has 29 exactly in leap years |
| CivilDates.Weekday | packages/calendar/MonthCalendar.tsx:164 | `getDay` is in 0..6 |
| CivilDates.AddDays | packages/calendar/Calendar.tsx:31-42 | adding `n` days moves the day number by exactly `n` |
| CivilDates.AddMonths | packages/calendar/Calendar.tsx:19-30 | adding `k` months moves the month index by `k` and clamps the day of the month to the target month's length |
| CivilDates.StartOfMonthIsFirst | packages/calendar/MonthCalendar.tsx:164 | `startOfMonth(d)` is `addDays(d, 1 - day)`, and no date of the month comes before it |
| CivilDates.DatesInMonth | packages/calendar/MonthCalendar.tsx:34-38 | one date per day of the month |
| CivilDates.DatesInMonthContents | packages/calendar/MonthCalendar.tsx:34-38 | the month's days in order, on consecutive day numbers, exactly the dates of that month |
| CivilDates.DayNumberInjective | packages/calendar/Calendar.tsx:31-42 | the day number determines the date |
| CivilDates.WeekdayShift | packages/calendar/MonthCalendar.tsx:164 | moving `n` days moves the weekday by `n` modulo 7 |
| CivilDates.AddDaysRoundTrip | packages/calendar/Calendar.tsx:31-42 | adding `n` days and then `-n` days returns the date |
| CivilDates.AddDaysCompose | packages/calendar/Calendar.tsx:31-42 | day shifts compose additively |
| CivilDates.AddTwelveMonths | packages/calendar/Calendar.tsx:25-30 | a year step keeps the month, moves the year, and clamps February 29 |
| CivilDates.AddMonthsRoundTrip | packages/calendar/Calendar.tsx:19-24 | a month shift is undone by the opposite shift when no clamping occurred |
| CivilDates.AddMonthsCompose | packages/calendar/Calendar.tsx:19-24 | month shifts compose when the first shift does not clamp |
| CivilDates.WeekBounds | packages/calendar/Calendar.tsx:43-48 | the start of the week is a Sunday and the end a Saturday, six days later, around the date |
| CivilDates.WeekdayInWeek | packages/calendar/MonthCalendar.tsx:66-67 | the `i`-th day after the start of any week has weekday `i` |
| CivilDates.SameWeek | packages/calendar/Calendar.tsx:43-48 | every date of a week has the same week start and end |
| Calendar.ReduceMonthStep | packages/calendar/Calendar.tsx:19-24 | previous/next month moves the month index by one, day clamped |
| Calendar.ReduceYearStep | packages/calendar/Calendar.tsx:25-30 | previous/next year keeps the month and clamps the day |
| Calendar.LeapDayNextYear | packages/calendar/Calendar.tsx:25-30 | 2024-02-29 goes to 2025-02-28 and 2023-02-28 |
| Calendar.ReduceDayWeekStep | packages/calendar/Calendar.tsx:31-42 | week steps move by 7 days and day steps by 1 |
| Calendar.ReduceStepsRoundTrip | packages/calendar/Calendar.tsx:31-42 | next day/week and previous day/week undo each other |
| Calendar.ReduceWeekBounds | packages/calendar/Calendar.tsx:43-48 | "start of week" gives the Sunday and "end of week" the Saturday of the date's week |
| Calendar.ReduceWeekBoundsIdempotent | packages/calendar/Calendar.tsx:43-48 | "start of week" and "end of week" are idempotent |
| Calendar.ReduceUnhandledIsIdentity | packages/calendar/Calendar.tsx:14-49 | the six unhandled actions leave the date unchanged |
| Calendar.TwoNextMonthsFromMidMonth | packages/calendar/Calendar.tsx:22-24 | from day 28 or earlier, two "next month" steps equal a two-month shift |
| Calendar.TwoNextMonthsFromMonthEnd | packages/calendar/Calendar.tsx:22-24 | from 1970-01-31 two steps give 1970-03-28 while a two-month shift gives 1970-03-31 |
| Calendar.KeymapPages | packages/calendar/Calendar.tsx:54-65 | PageUp/PageDown map to previous/next month, or to previous/next year with Shift |
| Calendar.KeymapIgnoresShift | packages/calendar/Calendar.tsx:66-83 | Shift only matters for PageUp and PageDown |
| Calendar.KeymapDomain | packages/calendar/Calendar.tsx:52-84 | exactly eight keys dispatch (ten bindings, as Shift changes PageUp and PageDown), and each dispatches a handled action |
| Calendar.KeymapCoversHandled | packages/calendar/Calendar.tsx:52-84 | every handled action is reachable from some key |
| Calendar.Calendar.constructor | packages/calendar/Calendar.tsx:179 | the initial focus is `value`, else today |
| Calendar.Calendar.Dispatch | packages/calendar/Calendar.tsx:18-50 | the focus becomes the reducer's result and the action is recorded |
| Calendar.Calendar.OnKeyDown | packages/calendar/Calendar.tsx:52-84 | the window listener dispatches the mapped action, or nothing for unmapped keys |
| Calendar.Calendar.ButtonClick | packages/calendar/Calendar.tsx:119-125 | a button click dispatches its action |
| Calendar.Calendar.ButtonKeyDown | packages/calendar/Calendar.tsx:127-135 | a button's keydown dispatches its action only when `key` is "Space", as written |
| MonthCalendar.SplitEveryFlatten | packages/calendar/MonthCalendar.tsx:168 | concatenating the rows gives back the cells |
| MonthCalendar.SplitEveryRows | packages/calendar/MonthCalendar.tsx:168 | every row but the last has 7 cells; the last has 1 to 7 |
| MonthCalendar.SplitEveryRow | packages/calendar/MonthCalendar.tsx:168 | row `r` is the slice of cells starting at `7r` |
| MonthCalendar.SplitEveryPosition | packages/calendar/MonthCalendar.tsx:168 | cell `k` sits at row `k / 7`, column `k % 7` |
| MonthCalendar.SplitEveryCell | packages/calendar/MonthCalendar.tsx:168 | the grid cell at row `r`, column `c` is cell `7r + c` |
| MonthCalendar.CellsLayout | packages/calendar/MonthCalendar.tsx:163-166 | as many blank cells as the first day's weekday, then every day of the month in order |
| MonthCalendar.TableOnlyDependsOnMonth | packages/calendar/MonthCalendar.tsx:161-168 | two focus dates in the same month build the same table |
| MonthCalendar.RovingTabIndex | packages/calendar/MonthCalendar.tsx:102-108 | the focus date's cell is at `offset + day - 1`; it is the only cell with tabIndex 0; blank cells are -1 |
| MonthCalendar.TabIndexCounts | packages/calendar/MonthCalendar.tsx:102-108 | exactly one cell has tabIndex 0 and all the others -1 |
| MonthCalendar.TableTabIndex | packages/calendar/MonthCalendar.tsx:100-108 | in the rendered rows, the cell with tabIndex 0 is the focus date's grid position |
| MonthCalendar.FollowFocus | packages/calendar/MonthCalendar.tsx:94-113 | the tabIndex-0 cell takes focus exactly when the mounted table contained the active element, otherwise focus stays; focus inside the table stays inside it |
| MonthCalendar.ColumnHeaderWeekdays | packages/calendar/MonthCalendar.tsx:66-67 | column `i` shows a day with weekday `i` |
| MonthCalendar.ColumnHeaderOrder | packages/calendar/MonthCalendar.tsx:66-75 | the seven column headers name Sunday to Saturday, in order |
| CalendarScenarios.January1970Cells | packages/calendar/MonthCalendar.tsx:163-168 | January 1970 starts on a Thursday: 4 blanks, 31 days, 5 rows |
| CalendarScenarios.February1970Cells | packages/calendar/MonthCalendar.tsx:163-168 | February 1970 starts on a Sunday: no blanks, 28 days |
| CalendarScenarios.January1971Cells | packages/calendar/MonthCalendar.tsx:163-168 | January 1971 starts on a Friday: 5 blanks, 31 days |
| CalendarScenarios.January1970TabIndex | packages/calendar/MonthCalendar.tsx:102-108 | focused on 1970-01-01, one cell has tabIndex 0 and 34 have -1 |
| CalendarScenarios.MonthStepsFromEpoch | packages/calendar/Calendar.tsx:19-24 | next month from 1970-01-01 is 1970-02-01, and previous month goes back |
| CalendarScenarios.YearStepsFromEpoch | packages/calendar/Calendar.tsx:25-30 | next year from 1970-01-01 is 1971-01-01, and previous year goes back |
| CalendarScenarios.MonthKeysFromEpoch | packages/calendar/Calendar.tsx:60-65 | PageDown then PageUp from 1970-01-01 |
| CalendarScenarios.YearKeysFromEpoch | packages/calendar/Calendar.tsx:54-59 | Shift+PageDown then Shift+PageUp from 1970-01-01 |
| CalendarScenarios.GridShowsCalendarFocus | packages/calendar/MonthCalendar.tsx:159-162 | without its own `focus` prop the grid shows the calendar's focus |
| JavaScript.Rem | packages/dialog/Dialog.tsx:121-126 | JavaScript's `%`: the magnitude is below the divisor and the sign follows the dividend |
| JavaScript.RemCongruent | packages/dialog/Dialog.tsx:121-126 | JavaScript's remainder is congruent to the dividend modulo the divisor |
| JavaScript.At | packages/dialog/Dialog.tsx:109 | `at(k)` is defined exactly for `-n <= k < n` |
| JavaScript.AtEuclidean | packages/dialog/Dialog.tsx:122 | `at(k)` in range reads position `k mod n` |
| JavaScript.AtRem | packages/dialog/Dialog.tsx:119-127 | `at(a % n)` always reads position `a mod n` |
| JavaScript.IndexOf | packages/dialog/Dialog.tsx:116 | `indexOf` is the first position holding the element, or -1 exactly when it is absent |
| Dialog.ExtractBackdrop | packages/dialog/Dialog.tsx:86-97 | the `Children.forEach` loop keeps the last Backdrop child (`LastBackdrop`) |
| Dialog.LastBackdropIsLast | packages/dialog/Dialog.tsx:86-97 | there is a backdrop iff some child is a Backdrop, and it is the last such child |
| Dialog.ContainerChildrenFilter | packages/dialog/Dialog.tsx:156-162 | the container renders no Backdrop, and every other child as many times as it occurs; unchanged when there is no Backdrop |
| Dialog.ContainerChildrenAppend | packages/dialog/Dialog.tsx:156-162 | dropping the Backdrops commutes with concatenation, so the other children keep their order |
| Dialog.FocusTrap.constructor | packages/dialog/Dialog.tsx:77-97 | the trap holds the dialog's props and the extracted backdrop |
| Dialog.FocusTrap.Activate | packages/dialog/Dialog.tsx:100-110 | the effect records the tabbables and leaves focus at `InitialFocus` |
| Dialog.FocusTrap.OnClose | packages/dialog/Dialog.tsx:81-84 | `onDismiss` is called if supplied, then focus goes to the previous-focus target if any |
| Dialog.FocusTrap.OnKeyDown | packages/dialog/Dialog.tsx:112-133 | Tab/Shift+Tab focus the cycle target, Escape closes, other keys and keys from outside do nothing; `preventDefault` exactly for handled keys |
| Dialog.FocusTrap.ClickBackdrop | packages/dialog/Dialog.tsx:90-147 | a supplied backdrop runs its own `onClick` then `onClose`; the default one calls `onDismiss` only, with no focus restore |
| Dialog.CycleInRange | packages/dialog/Dialog.tsx:119-127 | with any index, the target of Tab or Shift+Tab is in range, and is position `index ± 1 mod n` |
| Dialog.TabStep | packages/dialog/Dialog.tsx:124-127 | Tab from position `i` goes to `i + 1`, and from the last to the first |
| Dialog.ShiftTabStep | packages/dialog/Dialog.tsx:119-122 | Shift+Tab from position `i` goes to `i - 1`, and from the first to the last |
| Dialog.ShiftTabWrapsAround | packages/dialog/Dialog.tsx:119-122 | for every index, Shift+Tab reaches position `(index - 1 + n) mod n`, though the remainder computed on the way is negative when `index - 1` is |
| Dialog.CycleFromUntabbable | packages/dialog/Dialog.tsx:116-127 | from index -1, Tab goes to the first tabbable and Shift+Tab to the second-to-last one (the only one when there is one) |
| Dialog.IndexOfDistinct | packages/dialog/Dialog.tsx:116 | with distinct tabbables, `indexOf` finds each one's own position |
| Dialog.TabShiftTabInverse | packages/dialog/Dialog.tsx:116-127 | Tab and Shift+Tab undo each other on every tabbable |
| Dialog.TabsOrbit | packages/dialog/Dialog.tsx:124-127 | `k` Tabs from position `i` land on position `(i + k) mod n`, so every tabbable is reached |
| Dialog.TabCycleCloses | packages/dialog/Dialog.tsx:124-127 | `n` Tabs return focus to where it started |
| Dialog.InitialFocusTrapped | packages/dialog/Dialog.tsx:108-110 | focus stays if already inside; otherwise the initial target, else the first tabbable, else unchanged; inside whenever a target exists |
| Dialog.KeysOutsideIgnored | packages/dialog/Dialog.tsx:113-114 | a key pressed while focus is outside the container is ignored |
| Dialog.PreventedKeys | packages/dialog/Dialog.tsx:119-133 | `preventDefault` is called iff focus is inside and the key is Tab or Escape; Escape closes |
| Dialog.TabKeepsFocusInside | packages/dialog/Dialog.tsx:104-127 | from inside the container, Tab and Shift+Tab never move focus out of it |
| Dialog.LabelRule | packages/dialog/Dialog.tsx:139-153 | `aria-labelledby` names the title iff `aria-label` is not truthy; `aria-describedby` always names the description; the two ids differ; role `dialog`, `aria-modal` true |
| Dialog.ThreeTabbables | packages/dialog/Dialog.tsx:116-127 | with tabbables a, b, c, Tab cycles a→b→c→a and Shift+Tab goes a→c→b |
| BreadCrumb.ListItemsIntersperse | packages/breadcrumb/BreadCrumb.tsx:35-44 | corrected layout: with a truthy separator, the list is the Path children in order with one separator between any two consecutive ones |
| BreadCrumb.AsWrittenLayout | packages/breadcrumb/BreadCrumb.tsx:23-44 | the code's layout with a truthy separator: the paths interspersed with separators, plus one trailing separator exactly when some child is a Path and the last child is not |
| BreadCrumb.ListItemsWithoutSeparator | packages/breadcrumb/BreadCrumb.tsx:25-44 | without a truthy separator, both layouts are the Path children in order and nothing else |
| BreadCrumb.IntersperseShape | packages/breadcrumb/BreadCrumb.tsx:25-28 | `k` paths give `2k - 1` items, paths at even positions and aria-hidden separators at odd ones |
| BreadCrumb.PathOnlyTrail | packages/breadcrumb/BreadCrumb.tsx:23-44 | with only Path children, the code's layout interleaves the paths with `k - 1` separators |
| BreadCrumb.AsWrittenAgreesWhenLastIsPath | packages/breadcrumb/BreadCrumb.tsx:23-44 | the code's layout and the corrected one agree whenever the last child is a Path |
| BreadCrumb.AsWrittenDanglingSeparator | packages/breadcrumb/BreadCrumb.tsx:23-28 | as written, a trailing non-Path child makes the list end with a separator |
| BreadCrumb.DanglingSeparatorExample | packages/breadcrumb/BreadCrumb.tsx:23-44 | `[Path, false]` with "/" renders a path and a dangling separator; corrected, the path alone |
| BreadCrumb.CorrectedEndsWithPath | packages/breadcrumb/BreadCrumb.tsx:23-44 | the corrected list never ends with a separator |
| BreadCrumb.EmptyTrail | packages/breadcrumb/BreadCrumb.tsx:32-46 | with no children the output is an empty list in a nav labelled "Breadcrumb" |
| BreadCrumb.NavLabel | packages/breadcrumb/BreadCrumb.tsx:33 | the nav's label is "Breadcrumb" unless given |
| BreadCrumb.CurrentPage | packages/breadcrumb/BreadCrumb.tsx:13 | `aria-current="page"` iff `current`, absent an explicit `aria-current` |

## Left out

- React plumbing is not modelled: context providers, the "cannot be rendered outside" errors, JSX rendering, `cloneElement`, `forwardRef`, re-renders and effect re-runs when dependencies change. Children are sequences of tagged records, and ids use an opaque `useId` prefix.
- Registering and removing window listeners is not modelled. Each handler is a method applied to one key event.
- The `tabbable` library and its `displayCheck` are not modelled. The tabbables are a given sequence of distinct handles inside the container.
- For date-fns, only the date itself is modelled. Left out are:
  - the formatting strings (`"MMMM yyyy"`, `"dd"`, `"EEEE"`, `"EEEEEE"`);
  - time of day (`endOfWeek` ends at 23:59:59.999);
  - time zones.
  `new Date()` is the `today` parameter. Weekday names stand for the `"EEEE"` format.
- `assignRef` is not modelled: it only forwards an element to a ref. The rule it serves, that the focused cell takes focus only when the table contained the active element, is `MonthCalendar.FollowFocus`; the table's elements are a given set of handles (`None` before mounting).
- Styling, including the default backdrop's inline CSS, is not modelled.
- The `instanceof HTMLElement` guard in the dialog's key handler is not modelled: handles are always elements.
- Some calendar text is not modelled:
  - `Calendar.Title`'s text and its `grid-label` id;
  - the buttons' `aria-label` (the action string);
  - the grid's `aria-labelledby`.
- A Path's other props (`as`, `href`) are not modelled. Neither are separator values that are not strings (a number `0` is falsy in JavaScript).
- The host callbacks (`onDismiss`, a backdrop's `onClick`, the buttons' own `onClick`/`onKeyDown`) are opaque. They are recorded in order and cannot change focus in the model.
- The `dispatched` field of `Calendar.Calendar` is a ghost record of the dispatched actions, used to state the methods. The widget does not keep such a history.
- The order "dismiss, then refocus" in `onClose` shows only in `calls` and in the final focus. The model cannot observe an `onDismiss` that moves focus itself.

## Findings

| source | as written | input that shows it | evidently intended | confidence | as-written member | corrected member |
|---|---|---|---|---|---|---|
| packages/breadcrumb/BreadCrumb.tsx:23-28 | a separator follows a Path unless it is the last of *all* children (`Children.count`), so a trailing non-Path child still counts | children `[<Path/>, false]` (e.g. `{cond && <Path/>}` that is false) with separator "/" renders the path followed by a dangling "/" | a separator only between consecutive Paths, never after the last Path | medium; not executed | BreadCrumb.AsWrittenDanglingSeparator | BreadCrumb.ListItemsIntersperse |

`BreadCrumb.ListItemsAsWritten` is the code as written. `BreadCrumb.DanglingSeparatorExample` shows the input above. The rendered nav `BreadCrumb.BreadCrumb` uses the layout as written, and `BreadCrumb.AsWrittenLayout` states that layout for every input. `BreadCrumb.ListItems` is the corrected layout, and `BreadCrumb.ListItemsIntersperse` proves it is the interspersed paths. `BreadCrumb.CorrectedEndsWithPath` proves it never ends with a separator. `BreadCrumb.AsWrittenAgreesWhenLastIsPath` proves that the two layouts agree whenever the last child is a Path, which covers every trail in the widget's tests and demo.
