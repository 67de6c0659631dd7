# Nurse agenda: a verified model of its scheduling and cabinet core

The system is a Django web application. Home-care nurses use it to plan patient visits, and a
*cabinet* (a nursing practice) shares its agenda among associated nurses. This project models the
logic at its core and proves properties of that model. The model covers five parts:

- **Calendar arithmetic** (`nursapps/agenda/utils.py`), in `calendar.dfy`, module `AgendaUtils`:
  - month lengths and the validity of year/month/day URL segments relative to the current year;
  - the previous and next month's base dates, their years and two-digit month numbers;
  - the previous and next day;
  - the 68-entry quarter-hour grid from "06:00" to "22:45" that the agenda shows.

  Dates are a proleptic Gregorian `Date`, and `DateTime` adds exact hour and minute arithmetic.
- **Agenda views** (`nursapps/agenda/views.py`), in `views.dfy` and `events.dfy`:
  - the `HH:MM` path segment parsed into hour and minute;
  - `delete_event`: a loop over the group's occurrences that deletes the ones dated at or after a
    cutoff. The store is the class `AgendaEvents.EventStore`;
  - `create_events`: its outcome, which creates the group only when the submitted time is on the
    grid;
  - `lapj`: the list of booked times that `daily_agenda` shows.
- **Form serialisation** (`nursapps/agenda/forms.py`), in `forms.dfy`:
  - the care, weekday and edit-scope choice tables;
  - `clean_cares` and `clean_day_per_week`, which join the ticked codes with `", "`. The views
    split the stored strings back with the same separator.
- **Occurrence generation** (`nursapps/agenda/tests/test_models.py`), in `loops.dfy`:
  - the single-visit, every-N-hours and multi-day loops, as methods with loop invariants, each
    proved against a specification function;
  - the `by_hour` and `by_week_day` parameter builders.
- **Cabinet affiliation** (`nursapps/cabinet/views.py`), in `cabinet.dfy`:
  - the class `CabinetDb` holds the three tables and the users' owner flags;
  - each view is one method whose postcondition states the whole new state and the HTTP answer;
  - every method keeps the table constraints (`Valid`);
  - the autocomplete filter.

`ranges.dfy` models Python's `range` with a positive step. `text.dfy` models `str.split`,
`str.join`, `int()` on digit strings, zero-padded formatting and the ASCII upper-casing behind
`icontains`.

The current date, the request method, form validity and the logged-in user come from outside the
core, so they are parameters.

## Model

| member | source | states |
|---|---|---|
| Ranges.Range | nursapps/agenda/tests/test_models.py:55-59 | `range(start, stop, step)` for step > 0: empty exactly when start >= stop, every element in [start, stop) |
| Ranges.RangeAt | nursapps/agenda/tests/test_models.py:155-159 | element k of a range is start + k·step |
| Ranges.RangeElements | nursapps/agenda/tests/test_models.py:155-159 | every element k of a range is start + k·step |
| Ranges.RangeComplete | nursapps/agenda/tests/test_models.py:317-332 | the last element of a non-empty range is within one step of stop, so a range stops at the last value below stop |
| Ranges.RangeOfMultiple | nursapps/agenda/tests/test_models.py:251-258 | `range(a, a + n·step, step)` has exactly n elements, the k-th being a + k·step |
| Ranges.UnitRangeMembership | nursapps/agenda/tests/test_models.py:259 | x is in `range(start, stop)` exactly when start <= x < stop |
| Text.IndexOf | nursapps/agenda/views.py:236 | the leftmost occurrence of the separator at or after i, or the end when there is none |
| Text.Split | nursapps/agenda/views.py:236 | `s.split(sep)` always gives at least one piece |
| Text.Join | nursapps/agenda/forms.py:182 | the join of a non-empty list starts with its first element |
| Text.JoinEndsWithLast | nursapps/agenda/forms.py:182 | the join of a non-empty list ends with its last element |
| Text.SplitJoin | nursapps/agenda/forms.py:182 | splitting a non-empty joined list whose elements are separator-safe gives the list back |
| Text.CommaSpaceSafe | nursapps/agenda/forms.py:182 | an element without ", " is safe for the ", " separator |
| Text.CommaFreeHasNoCommaSpace | nursapps/agenda/forms.py:25-33 | a string without a comma has no ", " |
| Text.SingleCharSafe | nursapps/agenda/views.py:295 | a one-character separator is safe for any element not containing it |
| Text.ParseNat | nursapps/agenda/views.py:236 | the model of `int(s)` accepts exactly the non-empty strings of ASCII digits, giving their decimal value |
| Text.Pad2 | nursapps/agenda/utils.py:162 | `%m`, `%H` and `%M` give two decimal digits |
| Text.ParsePad2 | nursapps/agenda/utils.py:162 | `int()` of a zero-padded two-digit number gives the number back |
| Text.Pad2Injective | nursapps/agenda/utils.py:172 | distinct numbers below 100 have distinct padded forms |
| Text.UpperString | nursapps/cabinet/views.py:29 | UPPER keeps the length, leaves no lower-case ASCII letter and keeps every other character |
| Text.UpperStringIdempotent | nursapps/cabinet/views.py:29 | upper-casing twice is upper-casing once |
| Text.ContainsIgnoringCase | nursapps/cabinet/views.py:29 | `icontains`: the empty term and every exact substring match |
| Text.ContainsIgnoringCaseOfUpper | nursapps/cabinet/views.py:29 | searching for the upper-cased term finds exactly the names the term finds |
| AgendaUtils.LastDay | nursapps/agenda/utils.py:104-106 | 31 days for months 1, 3, 5, 7, 8, 10 and 12; 30 for months 4, 6, 9 and 11; February has 29 exactly in leap years, else 28 |
| AgendaUtils.IsValidYearMonth | nursapps/agenda/utils.py:109-117 | holds iff the year is within one of the current year and 1 <= month <= 12 |
| AgendaUtils.IsValidYearMonthDay | nursapps/agenda/utils.py:120-137 | holds iff the year/month test holds and 1 <= day <= month length; implies the date is a real calendar date |
| AgendaUtils.NextDay | nursapps/agenda/utils.py:192-196 | a valid date strictly after the given day |
| AgendaUtils.PrevDay | nursapps/agenda/utils.py:185-189 | a valid date strictly before the given day |
| AgendaUtils.NextDayIsSuccessor | nursapps/agenda/utils.py:192-196 | no valid date lies strictly between a day and its next day |
| AgendaUtils.PrevDayIsPredecessor | nursapps/agenda/utils.py:185-189 | no valid date lies strictly between a day and its previous day |
| AgendaUtils.NextPrevDay | nursapps/agenda/utils.py:185-196 | `next_day(prev_day(d)) == d` and `prev_day(next_day(d)) == d` |
| AgendaUtils.AddDays | nursapps/agenda/tests/test_models.py:70 | adding n days gives a valid date, the same date for n = 0 and a later one otherwise |
| AgendaUtils.SubDays | nursapps/agenda/utils.py:144 | subtracting n days gives a valid date, the same date for n = 0 and an earlier one otherwise |
| AgendaUtils.AddDaysAdditive | nursapps/agenda/tests/test_models.py:261 | adding a days then b days is adding a + b days |
| AgendaUtils.AddDaysMonotone | nursapps/agenda/tests/test_models.py:261 | more days added gives a strictly later date |
| AgendaUtils.SubAddDays | nursapps/agenda/utils.py:140-152 | subtracting n days undoes adding n days |
| AgendaUtils.AddDaysFirst | nursapps/agenda/utils.py:192-196 | adding n + 1 days is the next day after adding n days |
| AgendaUtils.PrevMonthBase | nursapps/agenda/utils.py:140-144 | a valid date strictly before the first of the month |
| AgendaUtils.NextMonthBase | nursapps/agenda/utils.py:147-152 | a valid date strictly after the last day of the month |
| AgendaUtils.PrevMonthBaseOfFirst | nursapps/agenda/utils.py:140-177 | from day 1, the last day of the previous month, whose year is `prev_year(year, month)` |
| AgendaUtils.NextMonthBaseOfFirst | nursapps/agenda/utils.py:147-182 | from day 1, day 1 of the following month, whose year is `next_year(year, month)` |
| AgendaUtils.PrevYear | nursapps/agenda/utils.py:175-177 | for a month 1..12, the year of the day before the first of the month |
| AgendaUtils.NextYear | nursapps/agenda/utils.py:180-182 | for a month 1..12, the year of the day after the last of the month |
| AgendaUtils.MonthNumber | nursapps/agenda/utils.py:160-172 | two characters that parse back to the month number |
| AgendaUtils.LessTransitive | nursapps/agenda/views.py:312 | the order on date-times is transitive |
| AgendaUtils.AddDaysT | nursapps/agenda/tests/test_models.py:261 | adding days to a date-time keeps the time of day |
| AgendaUtils.AddDaysTAdditive | nursapps/agenda/tests/test_models.py:261 | adding a days then b days to a date-time is adding a + b days |
| AgendaUtils.AddHours | nursapps/agenda/tests/test_models.py:170 | adding hours keeps the minute and moves the hour modulo 24 |
| AgendaUtils.AddNothing | nursapps/agenda/tests/test_models.py:72 | adding zero hours or zero days changes nothing; adding days never goes back |
| AgendaUtils.AddHoursMonotone | nursapps/agenda/tests/test_models.py:155-171 | more hours added gives a strictly later date-time |
| AgendaUtils.AddHoursAfterDays | nursapps/agenda/tests/test_models.py:251-261 | h hours after n days is 24n + h hours |
| AgendaUtils.ClockLabel | nursapps/agenda/utils.py:199-204 | an `HH:MM` label is five characters with ':' in the middle |
| AgendaUtils.ClockLabelInjective | nursapps/agenda/utils.py:199-204 | distinct times have distinct labels |
| AgendaUtils.GetDailyAgendaHours | nursapps/agenda/utils.py:199-204 | 68 labels, the i-th being 6 + i/4 hours and (i mod 4)·15 minutes |
| AgendaUtils.DailyAgendaHoursEnds | nursapps/agenda/utils.py:199-204 | the grid starts at "06:00" and ends at "22:45" |
| AgendaUtils.InDailyAgendaHours | nursapps/agenda/utils.py:199-204 | a time of day is on the grid iff it is a quarter-hour from 06:00 to 22:45 |
| AgendaUtils.GridSlotListed | nursapps/agenda/utils.py:199-204 | every quarter-hour from 06:00 to 22:45 is on the grid |
| AgendaUtils.ListedSlotOnGrid | nursapps/agenda/utils.py:199-204 | every grid label is a quarter-hour from 06:00 to 22:45 |
| AgendaEvents.FindEvent | nursapps/agenda/views.py:298 | the row with that key, or None exactly when no row has the key |
| AgendaEvents.RemoveFromCutoff | nursapps/agenda/views.py:298-314 | a row survives iff it is in another group or dated strictly before the cutoff |
| AgendaEvents.RemoveFromCutoffOrdered | nursapps/agenda/views.py:307-314 | deleting keeps the survivors in key order |
| AgendaEvents.CutoffAtFirstRemovesGroup | nursapps/agenda/views.py:307-314 | a cutoff at or before every member of the group removes the whole group |
| AgendaEvents.GroupRecords | nursapps/agenda/tests/test_models.py:263-275 | one row per date with consecutive fresh keys; every row shares the group, user, name, address and cares |
| AgendaEvents.EventStore.CreateGroup | nursapps/agenda/tests/test_models.py:263-275 | the create loop appends exactly the group's rows, in order, and keeps keys increasing |
| AgendaEvents.EventStore.DeleteFrom | nursapps/agenda/views.py:307-314 | the delete loop leaves exactly the rows of `RemoveFromCutoff`, keeps the store valid and the key counter |
| AgendaViews.ParseHourMinute | nursapps/agenda/views.py:295 | defined iff the segment splits on ':' into two digit strings |
| AgendaViews.ParseClockLabel | nursapps/agenda/views.py:295 | parsing an `HH:MM` label gives its hour and minute back |
| AgendaViews.MinuteOfClockLabel | nursapps/agenda/utils.py:199-204 | a label's minutes since midnight are 60·hour + minute |
| AgendaViews.GridStepsByQuarter | nursapps/agenda/utils.py:199-204 | the grid starts at minute 360 and each entry is 15 minutes after the previous one |
| AgendaViews.DeleteEvent | nursapps/agenda/views.py:292-337 | a bad segment or unknown key is an error; a GET only confirms; an invalid cutoff deletes nothing; a POST deletes exactly the group's rows at or after the cutoff; the key counter never changes |
| AgendaViews.SlotLabel | nursapps/agenda/views.py:255 | the `HH:MM` slot of a date-time is five characters |
| AgendaViews.SlotAccepted | nursapps/agenda/views.py:255 | the submitted time is accepted iff it is a quarter-hour from 06:00 to 22:45 |
| AgendaViews.CreateEventsResponse | nursapps/agenda/views.py:202-270 | the group is created iff the day is valid, the segment parses, the initial date is valid, the form was posted and is valid, and the time is on the grid; it warns iff the same holds except that the time is off the grid |
| AgendaViews.DayAppointments | nursapps/agenda/views.py:160-167 | the day's appointments are exactly the rows on that date owned by an associate |
| AgendaViews.BookedTimes | nursapps/agenda/views.py:169-173 | at most one label per appointment, one for each when the user is an associate, each the label of an appointment |
| AgendaViews.Lapj | nursapps/agenda/views.py:160-173 | every booked time is the `HH:MM` of an appointment on that day by an associate |
| AgendaViews.LapjIsAllOrNothing | nursapps/agenda/views.py:159-173 | `lapj` lists all the day's appointments when the user is an associate, and none otherwise |
| AgendaViews.BookedTimesOfAssociates | nursapps/agenda/views.py:169-173 | over associates' appointments, the filter keeps everything or nothing |
| AgendaForms.CodesHaveNoSeparator | nursapps/agenda/forms.py:8-33 | no care or weekday code is empty or contains ", " |
| AgendaForms.ChosenRoundTrip | nursapps/agenda/forms.py:179-189 | splitting the joined selection gives the selection back, and the join is not empty |
| AgendaForms.CleanCares | nursapps/agenda/forms.py:179-183 | no care gives ""; a non-empty selection of care codes splits back to itself |
| AgendaForms.CleanDayPerWeek | nursapps/agenda/forms.py:185-189 | no weekday gives ""; a non-empty selection of weekday codes is non-empty and splits back to itself |
| AgendaForms.InitialDays | nursapps/agenda/views.py:371-373 | the edit form gets no weekdays exactly when the stored string is empty |
| AgendaForms.InitialDaysOfCleaned | nursapps/agenda/forms.py:188 | a cleaned weekday selection comes back as itself in the edit form, and an empty one as "no weekdays" |
| AgendaForms.EditScopeKey | nursapps/agenda/forms.py:35-39 | each edit scope has one of the three choice keys |
| AgendaForms.ParseEditChoice | nursapps/agenda/forms.py:210-219 | a posted value is accepted iff it is one of the three keys, and maps back to it |
| AgendaForms.EditChoiceRoundTrip | nursapps/agenda/forms.py:210-219 | each scope round-trips through its key |
| OccurrenceLoops.CollectDayStep | nursapps/agenda/tests/test_models.py:55-71 | the day loop creates the dates start + k·delta_day days, k < total, in order |
| OccurrenceLoops.SingleVisitIsStart | nursapps/agenda/tests/test_models.py:55-73 | with one visit the loop creates exactly the start date |
| OccurrenceLoops.ShiftHoursOfRange | nursapps/agenda/tests/test_models.py:155-171 | the range's hours added to the start are the dates start + k·delta_hour hours |
| OccurrenceLoops.CollectHourStep | nursapps/agenda/tests/test_models.py:155-171 | the hour loop creates the dates start + k·delta_hour hours, k < total, in order |
| OccurrenceLoops.HourStepAscending | nursapps/agenda/tests/test_models.py:155-181 | those dates are strictly ascending |
| OccurrenceLoops.TwiceADayExample | nursapps/agenda/tests/test_models.py:174-181 | two visits 12 h apart from 2021-12-31 06:00 give 06:00 and 18:00 |
| OccurrenceLoops.AnchorStep | nursapps/agenda/tests/test_models.py:261 | moving the anchor of day i by delta_day days gives the anchor of day i + 1, i·delta_day + delta_day days after the start |
| OccurrenceLoops.MultiDayFromAnchor | nursapps/agenda/tests/test_models.py:251-261 | from the anchor of day i, the remaining iterations collect the batches of days i .. n − 1, each anchored at the start plus its index times delta_day days |
| OccurrenceLoops.MultiDayIsBatches | nursapps/agenda/tests/test_models.py:251-261 | the multi-day loop's dates are, in order, the batches of the anchors start + i·delta_day days for every i < n, each kept whole or dropped by the excluded-hour test on i + anchor hour |
| OccurrenceLoops.CollectDayBatch | nursapps/agenda/tests/test_models.py:252-260 | one iteration's comprehension gives the day's batch, or nothing when the day index is excluded |
| OccurrenceLoops.CollectMultiDay | nursapps/agenda/tests/test_models.py:250-261 | the multi-day loop collects exactly the multi-day list |
| OccurrenceLoops.CreateMultiDayGroup | nursapps/agenda/tests/test_models.py:250-275 | the store gets exactly one group row per multi-day date, in order, with fresh keys |
| OccurrenceLoops.KeptDays | nursapps/agenda/tests/test_models.py:259 | no more days are kept than there are iterations |
| OccurrenceLoops.MultiDayLengthStep | nursapps/agenda/tests/test_models.py:251-261 | adding days keeps the hour; the length grows by `total` for a kept day and by 0 for an excluded one |
| OccurrenceLoops.MultiDayLength | nursapps/agenda/tests/test_models.py:250-263 | the output length is `total` times the number of non-excluded day indices |
| OccurrenceLoops.NoDayDroppedFromSix | nursapps/agenda/tests/test_models.py:259 | from 06:00, no day is dropped while index + days <= 18 |
| OccurrenceLoops.NineteenthDayDropped | nursapps/agenda/tests/test_models.py:259 | from 06:00, the nineteenth day (index 18, 18 + 6 = 24) is dropped |
| OccurrenceLoops.KeptDaysSplit | nursapps/agenda/tests/test_models.py:251-259 | the kept-day count is additive over consecutive runs of iterations |
| OccurrenceLoops.HourStepFromAnchor | nursapps/agenda/tests/test_models.py:252-258 | every date of a batch is at or after its anchor |
| OccurrenceLoops.BatchBeforeNextAnchor | nursapps/agenda/tests/test_models.py:252-261 | when a batch spans at most delta_day days, it ends before the next anchor |
| OccurrenceLoops.DayBatchWithinDay | nursapps/agenda/tests/test_models.py:252-261 | when a batch spans at most delta_day days, it is ascending and lies from its anchor up to before the next one |
| OccurrenceLoops.MultiDayAscending | nursapps/agenda/tests/test_models.py:250-293 | under that condition the concatenated dates are strictly ascending and none is before the start |
| OccurrenceLoops.ThreeVisitsFromSix | nursapps/agenda/tests/test_models.py:252-258 | three visits 6 h apart from 06:00 fall at 06:00, 12:00 and 18:00 |
| OccurrenceLoops.ThreeDaysExample | nursapps/agenda/tests/test_models.py:280-293 | 3 days of 3 visits 6 h apart from 2021-12-31 06:00 give the nine listed dates |
| OccurrenceLoops.ByHour | nursapps/agenda/tests/test_models.py:317-332 | element k is start + k·delta; every element is below the adjusted stop; the range stops one step short of it; it is empty exactly when the start hour reaches the adjusted stop |
| OccurrenceLoops.ByHourExample | nursapps/agenda/tests/test_models.py:317-332 | `by_hour` with (6, 6, 3) gives (6, 12, 18) |
| OccurrenceLoops.ParseAll | nursapps/agenda/tests/test_models.py:336 | defined iff every piece is a digit string; then one number per piece, in order |
| OccurrenceLoops.ParseDayCode | nursapps/agenda/forms.py:25-33 | weekday code n parses as n |
| OccurrenceLoops.ByWeekDay | nursapps/agenda/tests/test_models.py:334-336 | one number per piece of the split string when every piece parses; the empty string raises |
| OccurrenceLoops.ByWeekDayOfCleaned | nursapps/agenda/tests/test_models.py:334-336 | a stored weekday selection parses back to the ticked weekday numbers, in order |
| OccurrenceLoops.ByWeekDayExample | nursapps/agenda/tests/test_models.py:308-336 | "0, 2, 4" parses as (0, 2, 4) |
| CabinetViews.CabinetNamed | nursapps/cabinet/views.py:87-88 | the cabinet with that name, if and only if the name is taken |
| CabinetViews.AssociationOf | nursapps/cabinet/views.py:127 | the user's associate row, or None when the user has none |
| CabinetViews.FirstAssociateOf | nursapps/cabinet/views.py:89-91 | the earliest row of the cabinet in key order, or None iff the cabinet has no member |
| CabinetViews.RemoveRequests | nursapps/cabinet/views.py:140-196 | a request survives iff the delete query does not select it |
| CabinetViews.RemoveRequestsKeepsOnePerSender | nursapps/cabinet/views.py:140-196 | deleting requests keeps at most one request per sender |
| CabinetViews.RemoveRequestsIdempotent | nursapps/cabinet/views.py:167-196 | repeating a delete removes nothing more |
| CabinetViews.CancelSubsumesDecline | nursapps/cabinet/views.py:167-196 | declining a sender and then cancelling their demands leaves what cancelling alone leaves |
| CabinetViews.MatchingCabinets | nursapps/cabinet/views.py:29-31 | a cabinet is kept iff its name contains the term case-insensitively |
| CabinetViews.MatchingCabinetsAbove | nursapps/cabinet/views.py:29-31 | a lower bound on the input's keys bounds the matches' keys |
| CabinetViews.MatchingCabinetsOrdered | nursapps/cabinet/views.py:29-31 | the matches stay in key order |
| CabinetViews.Suggestions | nursapps/cabinet/views.py:29-32 | at most 10 names: those of the first min(10, matches) matches, each containing the term |
| CabinetViews.SuggestionsAreLowestIds | nursapps/cabinet/views.py:29-31 | any matching cabinet left out has a larger key than every suggested one |
| CabinetViews.SuggestionsComplete | nursapps/cabinet/views.py:29-31 | with at most 10 matches, every match is suggested |
| CabinetViews.AppendCabinetKeepsTables | nursapps/cabinet/views.py:43-52 | a new cabinet with a fresh key and an untaken name keeps keys increasing, names unique and associate rows valid |
| CabinetViews.AppendAssociateKeepsTable | nursapps/cabinet/views.py:139 | a row for an unaffiliated registered user and an existing cabinet keeps one association per user |
| CabinetViews.AppendRequestKeepsOnePerSender | nursapps/cabinet/views.py:81-96 | a request from a sender with none pending keeps one request per sender |
| CabinetViews.CabinetDb.Autocomplete | nursapps/cabinet/views.py:25-32 | a GET gets the suggestions, at most 10 existing names containing the term; any other method fails |
| CabinetViews.CabinetDb.CreateNewCabinet | nursapps/cabinet/views.py:36-66 | a taken name changes nothing, sending owners to the profile and others to ask-for with the name; a new non-empty name creates the cabinet, owner flag and membership; an empty name changes nothing |
| CabinetViews.CabinetDb.InsertCabinet | nursapps/cabinet/views.py:51-57 | the cabinet and owner flag are written first; the membership insert fails, leaving them, when the user is already affiliated |
| CabinetViews.CabinetDb.AskForAssociate | nursapps/cabinet/views.py:76-113 | a request to the cabinet's first member is created iff the cabinet exists, the user is no owner and has no pending request; otherwise the several-cabinets or unknown-name notice, with no change |
| CabinetViews.CabinetDb.ConfirmAssociate | nursapps/cabinet/views.py:124-151 | a posted sender joins the member's cabinet, loses their requests to it and becomes an owner whatever the choice; no association, or an unknown or affiliated sender, fails with no change |
| CabinetViews.CabinetDb.DeclineAssociate | nursapps/cabinet/views.py:154-181 | exactly the sender's requests to the member's cabinet are deleted; a missing sender or association fails with no change |
| CabinetViews.CabinetDb.CancelAssociateDemand | nursapps/cabinet/views.py:184-207 | every request the user sent is deleted and nothing else changes |

## Left out

- The recurrence engine's `Event` methods (`create_events`, `update_events`, `updated_date`, the model's `delete_event`) and the `Event` model are not part of this model. `create_events` is modelled by its outcome only, and the generation rules by the loops of `nursapps/agenda/tests/test_models.py`.
- `edit_event` is left out, apart from how it reads a stored weekday string back (`InitialDays`); its update path calls the `Event` methods above.
- The `rrule`-based weekly generation, the cabinet's HTML month calendar (`CalEvent`), and month names (`calendar.month_name`): these are output formatting and a foreign library.
- Python's year range 1–9999 and its `OverflowError`, because years here are unbounded.
- `numpy.arange(6, 23, 0.25)`'s floating point: its steps are exact in binary, so the grid is modelled on integer quarter-hours.
- `int()` on signs, surrounding whitespace, underscores between digits or non-ASCII digits: Python accepts `int("+6")`, `int(" 6")` and `int("0_6")`, but the model parses plain ASCII digit strings only. A segment that does not parse is an error outcome.
- The seconds and microseconds of `datetime`: `DateTime` stops at the minute. The delete cutoff's `>=` and the `str(date)[11:16]` slot are therefore compared at minute precision, which is all the URL segments and the quarter-hour form can produce.
- `Text.UpperString`: folds ASCII letters only; the database's Unicode case folding is left out.
- Negative recurrence parameters, and the form validations of the form classes. Form validity is a boolean parameter.
- `range` with step 0, which raises ValueError: the loops require a positive step.
- The ORM, HTTP requests, templates, redirects' URL arguments, `login_required` and the settings. These are abstracted into method parameters and the `Response`/`DeleteResponse`/`CreateResponse` values. `datetime.now()` is a parameter.
- The 404 of `create_events` for an unknown `event_id`: its `existingDate` parameter stands for the looked-up event's date.
- The cabinet name's `max_length=10` and the nullable integer columns of `RequestAssociate`: the model uses natural-number keys and unbounded names.
- `confirm_associate`'s rendered associates list: it is display only, and the model does not compute it.
- `CabinetViews.CabinetDb.ConfirmAssociate`: a posted sender that is not a number is not modelled. The sender is an optional natural number, with None for a missing or empty field.
- User registration: the set of registered users is fixed when a `CabinetDb` is constructed.
- Concurrency between requests: each view runs alone, with the autocommit behaviour of the settings, which define no atomic requests.

## Modelling notes

- `confirm_associate` tests `choice == "associate" or "collaborator"`. The right-hand operand is a non-empty string, so the test always holds. The model therefore sets the sender's owner flag whatever `choice` is.
- `create_new_cabinet` writes the cabinet and the owner flag before inserting the associate row. When the user is already affiliated, that insert violates the one-to-one field and the view fails, but the first two writes stay committed (`InsertCabinet`).
- The exclusion test of the multi-day comprehension, `index + date.hour not in [0, …, 5, 24]`, does not mention the generated hour. So each day's batch is kept or dropped as a whole (`CollectDayBatch`, `MultiDayLength`).
