# Google_Calendar: a verified model of the calendar core

This project models the core of a small room-based calendar. The browser shows a month grid, a
week view and a day view of one room's events, and a modal creates, edits and deletes an event.
An Express route stores the events through a Mongoose `Event` model. The model covers four areas:

- **Calendar arithmetic.** `CivilDate` is a proleptic Gregorian date with JavaScript's 0-based
  months. It has a day number, a weekday, adding days, and `new Date(y, m, d)` normalisation with
  rollover (`MakeDate`). On top of it, `CalendarGrid` builds the month grid and `DetailedView`
  builds the week and day views. `Home` covers navigation and the header texts.
- **The JavaScript built-ins these use.** `Text` models `parseInt`, `padStart`, `split`, `trim`
  and truthiness.
- **The event store.** `EventStore` models the `Event` document and the four handlers of
  `routes/events.js` over a map from id to record. Each handler is a pure function returning the
  reply and the new store.
- **The client's reconciliation and the modal.** `Home` turns documents into client events and
  reconciles the page's list after a save or delete. `EventModal` models the form, its pre-fill,
  the save guard and payload, and the delete confirmation.

`System` composes the parts. A click on Save in the modal builds the request, runs it against the
store, and reconciles the list. The main invariant is `System.Mirrors`: the page's list is exactly
the room's documents, each normalised once. The fetch, every save and every delete keep it.

In three places the source states an intent that its code does not reach. The model follows
the code, and the Findings table records each gap:

- The room listing filters by room (`src/BackEnd/routes/events.js:10`), and the create handler
  copies `roomId` into the new document, with a comment saying the room is meant to be saved
  (`src/BackEnd/routes/events.js:44`). The schema in `src/BackEnd/models/Event.js:3-10` does
  not declare `roomId` (Findings, row 3).
- A click on an empty hour slot of the day view selects the displayed day
  (`src/FrontEnd/components/DetailedEventView.jsx:155`). The slot's placeholder carries no day,
  though, and the modal sends the placeholder's day, so the request has no date (Findings, row 1).
- The page rebuilds the saved date from the modal's day inside the displayed month
  (`src/FrontEnd/components/Home.jsx:82-86`). An event edited from the other month of a week
  that straddles two months therefore moves (Findings, row 2).

`EventStore` models the store with `roomId` persisted. That is the schema with `roomId`
declared, which the filter and the comment above expect. `System.Mirrors` and
`EventStore.ListPartitionsRooms` are proved for that store. The schema as written is modelled
separately, by `System.SaveUnderSchema` and `System.ListUnderSchema`.

The date the page builds with `new Date(y, m, d)` follows the constructor's rule for two-digit
years: a year 0..99 is read as 1900..1999 (`CivilDate.ConstructorYear`, `CivilDate.NewDate`).
Month navigation, the month grid's length and first weekday, and the saved date all use it.
`setDate` has no such rule, so week and day navigation do not.

## Model

| member | source | states |
|---|---|---|
| CivilDate.NextDay | src/FrontEnd/components/Home.jsx:171-174 | the day after a valid date is a valid date |
| CivilDate.PrevDay | src/FrontEnd/components/Home.jsx:157-160 | the day before a valid date is a valid date |
| CivilDate.PrevNextInverse | src/FrontEnd/components/Home.jsx:157-160 | stepping back one day and then forward one day returns the date |
| CivilDate.NextDayNumber | src/FrontEnd/components/Home.jsx:171-174 | the next day has the next day number |
| CivilDate.DayNumberWithinYear | src/FrontEnd/components/CalendarGrid.jsx:5 | a date's day number lies inside its year's range |
| CivilDate.DayNumberMonotone | src/FrontEnd/components/DetailedEventView.jsx:22-37 | an earlier calendar date has a smaller day number |
| CivilDate.DayNumberInjective | src/FrontEnd/components/DetailedEventView.jsx:13-20 | two valid dates with the same day number are the same date |
| CivilDate.DayNumberReached | src/FrontEnd/components/DetailedEventView.jsx:27-32 | every day number n days away from a valid date is the number of some valid date |
| CivilDate.DaysBeforeYearClosed | src/FrontEnd/components/CalendarGrid.jsx:5 | the days before a year follow the Gregorian 4/100/400 closed form, for years before and after year 1 |
| CivilDate.DaysBeforeYearStep | src/FrontEnd/components/CalendarGrid.jsx:4 | consecutive years differ by the length of the year, 366 exactly in leap years |
| CivilDate.DaysBeforeMonthStep | src/FrontEnd/components/CalendarGrid.jsx:4 | consecutive months differ by the month's length |
| CivilDate.AddDays | src/FrontEnd/components/DetailedEventView.jsx:27-32 | adding n days gives the valid date whose day number is n more |
| CivilDate.AddDaysZero | src/FrontEnd/components/DetailedEventView.jsx:31-32 | adding no days keeps the date |
| CivilDate.AddDaysOne | src/FrontEnd/components/Home.jsx:171-174 | adding one day is the next day |
| CivilDate.AddDaysCompose | src/FrontEnd/components/DetailedEventView.jsx:27-32 | adding a days and then b days is adding a + b days |
| CivilDate.AddDaysInverse | src/FrontEnd/components/Home.jsx:150-176 | adding n days and then -n days returns the date |
| CivilDate.WeekdayAddDays | src/FrontEnd/components/DetailedEventView.jsx:24-32 | adding n days advances the weekday by n modulo 7 |
| CivilDate.WeekdayAnchors | src/FrontEnd/components/CalendarGrid.jsx:5 | 1970-01-01 is a Thursday, 2024-03-05 a Tuesday and 2000-02-29 a Tuesday, as `getDay` reports them |
| CivilDate.WeekdayAnchor | src/FrontEnd/components/CalendarGrid.jsx:5 | a date's weekday is its closed-form day count modulo 7 |
| CivilDate.WeekStart | src/FrontEnd/components/DetailedEventView.jsx:23-27 | the Sunday on or before a date is a valid date |
| CivilDate.WeekStartIsSunday | src/FrontEnd/components/DetailedEventView.jsx:23-27 | the week start is a Sunday at most six days before the date, and adding the weekday returns to the date |
| CivilDate.WeekStartWeekday | src/FrontEnd/components/Home.jsx:206-208 | the week start's weekday is 0 |
| CivilDate.WeekStartPlus | src/FrontEnd/components/DetailedEventView.jsx:30-33 | the i-th day after the week start has weekday i |
| CivilDate.WeekStartPlusOffset | src/FrontEnd/components/DetailedEventView.jsx:27-32 | i days after the week start is i - weekday days after the date |
| CivilDate.WeekStartWeekLater | src/FrontEnd/components/Home.jsx:167-170 | the week start of the date a week later is the week start a week later |
| CivilDate.WeekStartReturns | src/FrontEnd/components/DetailedEventView.jsx:27 | moving forward from the week start by the weekday returns to the date |
| CivilDate.WeekdayWeekApart | src/FrontEnd/components/Home.jsx:153-156 | a date a week earlier or later has the same weekday |
| CivilDate.MakeDate | src/FrontEnd/components/Home.jsx:82-86 | the date for a full year, month and day, with any month and day, is a valid date, rolling months into years and days into months |
| CivilDate.ConstructorYear | src/FrontEnd/components/Home.jsx:82-86 | the constructor keeps a year outside 0..99 and adds 1900 to a year inside it, so the year it uses is never in 0..99 |
| CivilDate.NewDate | src/FrontEnd/components/Home.jsx:82-86 | `new Date(y, m, d)` with any year, month and day gives a valid date |
| CivilDate.NewDateOfFourDigitYear | src/FrontEnd/components/CalendarGrid.jsx:4 | for a year outside 0..99 the constructor's date is the rolled-over date of that same year |
| CivilDate.NewDateTwoDigitYears | src/FrontEnd/components/CalendarGrid.jsx:4 | `new Date(99, 12, 1)` is 2000-01-01, and day 0 of March of year 0 is 1900-02-28 |
| CivilDate.FirstOfMonth | src/FrontEnd/components/Home.jsx:152 | the first of any month index is a valid date in the same absolute month |
| CivilDate.MakeDateOfValid | src/FrontEnd/components/Home.jsx:82-86 | building a valid date changes nothing |
| CivilDate.MakeDateOfDay | src/FrontEnd/components/Home.jsx:82-86 | building from fields that already name a valid date gives that date |
| CivilDate.MakeDateShift | src/FrontEnd/components/DetailedEventView.jsx:31-32 | building with the day moved by n is adding n days |
| CivilDate.SetDateForward | src/FrontEnd/components/Home.jsx:168-169 | `setDate(getDate() + n)` is adding n days |
| CivilDate.SetDateBack | src/FrontEnd/components/Home.jsx:154-155 | `setDate(getDate() - n)` is subtracting n days |
| CivilDate.MakeDateSameDayIffSameMonth | src/FrontEnd/components/Home.jsx:82-86 | rebuilding a date from its day in a given month gives the date back exactly when it lies in that month |
| CivilDate.MakeDateNextMonth | src/FrontEnd/components/Home.jsx:166 | the first of month m + 1 is the next month's first, rolling December into January of the next year |
| CivilDate.MakeDatePreviousMonth | src/FrontEnd/components/Home.jsx:152 | the first of month m - 1 is the previous month's first, rolling January into December of the year before |
| CivilDate.MakeDateDayZero | src/FrontEnd/components/CalendarGrid.jsx:4 | day 0 of the next month is the last day of this month |
| Text.NatToString | src/FrontEnd/components/DetailedEventView.jsx:9-10 | the decimal numeral of n consists of digits, has value n and has no leading zero |
| Text.IntToString | src/FrontEnd/components/DetailedEventView.jsx:123 | an integer's numeral starts with a minus sign exactly when it is negative |
| Text.Pad2 | src/FrontEnd/components/DetailedEventView.jsx:156-157 | `padStart(2, '0')` gives at least two digits with the number's value, unchanged from 10 on |
| Text.TrimStart | src/FrontEnd/components/EventModal.jsx:34 | removing leading whitespace leaves a suffix that starts with a non-space and drops only whitespace |
| Text.TrimEnd | src/FrontEnd/components/EventModal.jsx:34 | removing trailing whitespace leaves a prefix that ends with a non-space and drops only whitespace |
| Text.TrimEmptyIffBlank | src/FrontEnd/components/EventModal.jsx:34 | a string trims to empty exactly when all its characters are whitespace |
| Text.LeadingDigits | src/FrontEnd/components/DetailedEventView.jsx:7 | `parseInt` reads the longest run of digits, stopping at the first non-digit |
| Text.ParseIntNumeral | src/FrontEnd/components/DetailedEventView.jsx:116 | a numeral followed by a non-digit parses to the numeral's value |
| Text.ParseIntNatToString | src/FrontEnd/components/DetailedEventView.jsx:7 | `parseInt` reads back the numeral of any natural number |
| Text.ParseIntIntToString | src/FrontEnd/components/DetailedEventView.jsx:7 | `parseInt` reads back the numeral of any integer, negative ones included |
| Text.ParseIntNegative | src/FrontEnd/components/DetailedEventView.jsx:7 | a minus sign before a numeral parses to the negated value |
| Text.IntToStringExcludes | src/FrontEnd/components/DetailedEventView.jsx:10 | a numeral never contains a separator such as `:` or a space |
| Text.Split | src/FrontEnd/components/DetailedEventView.jsx:6 | `split(sep)` gives at least one field, and no field contains the separator |
| Text.SplitJoin | src/FrontEnd/components/DetailedEventView.jsx:6 | joining the fields of a split with the separator gives back the string |
| Text.SplitNoSeparator | src/FrontEnd/components/DetailedEventView.jsx:116 | a string without the separator splits into itself alone |
| Text.SplitTwoFields | src/FrontEnd/components/DetailedEventView.jsx:6 | `a:b` with no `:` in a or b splits into exactly a and b |
| Seqs.Filter | src/FrontEnd/components/CalendarGrid.jsx:24 | filtering keeps exactly the elements that satisfy the test, and keeps everything when all do |
| Seqs.FilterAppend | src/FrontEnd/components/Home.jsx:181 | filtering a concatenation filters each part in order |
| Seqs.FilterCount | src/FrontEnd/components/Home.jsx:181 | filtering keeps every copy of a kept element and no copy of a dropped one |
| Seqs.FilterKeepsKeysDistinct | src/FrontEnd/components/Home.jsx:181 | filtering a list with distinct ids leaves the ids distinct |
| CalendarGrid.DaysShown | src/FrontEnd/components/CalendarGrid.jsx:4 | the grid shows as many days as the Gregorian length of the displayed month, leap years included; for a displayed year 0..99, the length of that month in 1900..1999 |
| CalendarGrid.LeadingBlanks | src/FrontEnd/components/CalendarGrid.jsx:5 | the number of blank cells before day 1 is between 0 and 6 |
| CalendarGrid.LeadingBlanksIsWeekdayOfFirst | src/FrontEnd/components/CalendarGrid.jsx:5 | the number of blank cells is the weekday of the month's first day, in the year as the constructor reads it |
| CalendarGrid.EventsForDay | src/FrontEnd/components/CalendarGrid.jsx:23-25 | a day's events are exactly the listed events on that day of the month |
| CalendarGrid.DayCells | src/FrontEnd/components/CalendarGrid.jsx:62-64 | the day cells are days 1..n in order, each with its events, today mark and badge |
| CalendarGrid.MonthGrid | src/FrontEnd/components/CalendarGrid.jsx:27-64 | the grid has the leading blanks and then the cells of days 1..daysInMonth in order, with nothing after |
| CalendarGrid.EventInExactlyOneCell | src/FrontEnd/components/CalendarGrid.jsx:23-25 | an event appears in a day cell exactly when it is that cell's day, and only for days inside the month |
| CalendarGrid.BadgeIsCellCount | src/FrontEnd/components/CalendarGrid.jsx:165-173 | a cell shows a badge exactly when some event falls on its day, and the badge counts those events |
| CalendarGrid.BadgeTotalOfDayCells | src/FrontEnd/components/CalendarGrid.jsx:165-173 | the badges of days 1..n add up to the number of events on those days |
| CalendarGrid.BadgeTotalSkipsBlanks | src/FrontEnd/components/CalendarGrid.jsx:27 | blank cells add nothing to the badge total |
| CalendarGrid.BadgesCountMonthEvents | src/FrontEnd/components/CalendarGrid.jsx:165-173 | the badges of the grid add up to the number of events whose day lies in the month |
| CalendarGrid.TodayMarking | src/FrontEnd/components/CalendarGrid.jsx:6-9 | a cell is marked today exactly when the displayed month and year are the current ones and it is today's cell, so at most one is |
| CalendarGrid.DayClick | src/FrontEnd/components/CalendarGrid.jsx:11-15 | clicking a day opens the modal in create mode with that day selected |
| CalendarGrid.EditClick | src/FrontEnd/components/CalendarGrid.jsx:17-21 | clicking an event opens the modal on that event with its day selected |
| DetailedView.JsRemainder | src/FrontEnd/components/DetailedEventView.jsx:9 | JavaScript's `%` agrees with the mathematical remainder for non-negative hours and stays strictly inside (-12, 12) |
| DetailedView.FormatTime | src/FrontEnd/components/DetailedEventView.jsx:4-11 | the formatted time is empty exactly when the time is absent or empty |
| DetailedView.FormatTimeOfFields | src/FrontEnd/components/DetailedEventView.jsx:6-10 | a time with an hour field and a minutes field formats as the 12-hour hour, the minutes unchanged and the meridiem |
| DetailedView.HourTextOfDayHour | src/FrontEnd/components/DetailedEventView.jsx:9 | `hour % 12 \|\| 12` is the 12-hour clock hour: 0 and 12 show as 12 |
| DetailedView.ClockTimeFields | src/FrontEnd/components/DetailedEventView.jsx:6-7 | a two-digit `HH:mm` time splits into its hour and minutes, and the hour parses back |
| DetailedView.FormatTimeOfClock | src/FrontEnd/components/DetailedEventView.jsx:4-11 | hour 0 shows as 12 AM, 1-11 as AM, 12 as 12 PM and 13-23 as h - 12 PM, with the minutes unchanged |
| DetailedView.MidnightEndShowsAsNoon | src/FrontEnd/components/DetailedEventView.jsx:157 | the last slot's end time "24:00" formats exactly like the noon slot's start, as 12:00 PM |
| DetailedView.SlotEndShowsAsSlotStart | src/FrontEnd/components/DetailedEventView.jsx:156-157 | a slot's end time formats like any slot start with the same 12-hour hour and meridiem |
| DetailedView.HourLabelAgreesWithFormatTime | src/FrontEnd/components/DetailedEventView.jsx:123 | the row label of hour h and the formatted time h:00 show the same 12-hour hour and meridiem |
| DetailedView.HourLabelMidnight | src/FrontEnd/components/DetailedEventView.jsx:123 | row 0 is labelled with the 12-hour clock as 12 AM |
| DetailedView.HourLabelMorning | src/FrontEnd/components/DetailedEventView.jsx:123 | rows 1-11 are labelled with their hour and AM |
| DetailedView.HourLabelNoon | src/FrontEnd/components/DetailedEventView.jsx:123 | row 12 is labelled with the 12-hour clock as 12 PM |
| DetailedView.HourLabelAfternoon | src/FrontEnd/components/DetailedEventView.jsx:123 | rows 13-23 are labelled with h - 12 and PM |
| DetailedView.EventsForDate | src/FrontEnd/components/DetailedEventView.jsx:13-20 | a date's events are exactly the listed events whose full date is that date |
| DetailedView.WeekDates | src/FrontEnd/components/DetailedEventView.jsx:22-37 | the week has exactly seven valid dates |
| DetailedView.StartOfWeek | src/FrontEnd/components/DetailedEventView.jsx:23-27 | moving back by the weekday gives a valid date |
| DetailedView.WeekDatesStart | src/FrontEnd/components/DetailedEventView.jsx:23-27 | moving back by the weekday with `setDate` lands on the Sunday on or before the date |
| DetailedView.WeekDatesColumn | src/FrontEnd/components/DetailedEventView.jsx:30-33 | column i of the week is i days after its Sunday |
| DetailedView.WeekDatesAreTheWeek | src/FrontEnd/components/DetailedEventView.jsx:22-37 | the seven dates are consecutive from the Sunday, and the displayed date is the one at its weekday's column |
| DetailedView.WeekDatesWeekdays | src/FrontEnd/components/DetailedEventView.jsx:22-37 | the columns run from Sunday to Saturday |
| DetailedView.WeekColumnOfEvent | src/FrontEnd/components/DetailedEventView.jsx:13-37 | an event shows in column i exactly when its date is i days after the week's Sunday |
| DetailedView.HourEvents | src/FrontEnd/components/DetailedEventView.jsx:114-118 | an hour row's events are exactly the day's events whose start time's hour parses to that hour |
| DetailedView.DayRows | src/FrontEnd/components/DetailedEventView.jsx:102-123 | the day view has 24 rows; row h is labelled for hour h and holds that hour's events of the displayed date |
| DetailedView.EventInItsHourRow | src/FrontEnd/components/DetailedEventView.jsx:114-118 | an event is in row h exactly when it is on the displayed date and its start hour is h; one without a start time is in no row |
| DetailedView.EventInAtMostOneRow | src/FrontEnd/components/DetailedEventView.jsx:114-118 | no event appears in two hour rows |
| DetailedView.SlotTimesReadBack | src/FrontEnd/components/DetailedEventView.jsx:156-157 | the start time an empty slot of hour h pre-fills reads back as hour h and formats as h on the 12-hour clock at :00 |
| DetailedView.EventClick | src/FrontEnd/components/DetailedEventView.jsx:66-70 | clicking an event in a week column edits it with the column's day selected; the day view's click (lines 130-134) is the same with the displayed date |
| DetailedView.SlotClick | src/FrontEnd/components/DetailedEventView.jsx:154-159 | clicking an empty hour slot opens the modal on a placeholder with only that hour's start and end times |
| Home.Previous | src/FrontEnd/components/Home.jsx:150-162 | going back from a valid date gives a valid date in every view mode |
| Home.Next | src/FrontEnd/components/Home.jsx:164-176 | going forward from a valid date gives a valid date in every view mode |
| Home.MonthNavigation | src/FrontEnd/components/Home.jsx:150-176 | month navigation lands on day 1 of the adjacent month, rolling the year at December and January; from a year 0..99 it lands in 1900..1999 |
| Home.StepNavigation | src/FrontEnd/components/Home.jsx:153-175 | week navigation moves by seven days and day navigation by one |
| Home.WeekStepKeepsWeekday | src/FrontEnd/components/Home.jsx:153-170 | week navigation keeps the weekday and moves the shown week by exactly one week |
| Home.PreviousUndoesNext | src/FrontEnd/components/Home.jsx:150-176 | in week and day mode, previous after next and next after previous return the date |
| Home.MonthRoundTrip | src/FrontEnd/components/Home.jsx:150-176 | in month mode, previous after next and next after previous return the first of the displayed month as the constructor reads its year; the two cases that cross into a year 0..99 land in 1899 and 2000 |
| Home.AbbrevIsListed | src/FrontEnd/components/Home.jsx:211-212 | the first three letters of each month name are the usual abbreviation |
| Home.AbbrevsDistinct | src/FrontEnd/components/Home.jsx:197-212 | no two month names, and no two abbreviations, are equal |
| Home.AbbrevInjective | src/FrontEnd/components/Home.jsx:211-213 | two months share an abbreviation exactly when they are the same month |
| Home.MonthNamesHaveNoSpace | src/FrontEnd/components/Home.jsx:197-200 | no month name contains a space, so the header's fields are unambiguous |
| Home.MonthHeaderRoundTrip | src/FrontEnd/components/Home.jsx:204 | the month header reads back as the displayed month and year |
| Home.MonthHeaderInjective | src/FrontEnd/components/Home.jsx:204 | different months or years always have different headers |
| Home.WeekHeaderIsTheWeek | src/FrontEnd/components/Home.jsx:205-215 | the week header is the range text from the Sunday on or before the date to six days later, naming the end's month only when it differs and showing the Sunday's year |
| Home.Normalize | src/FrontEnd/components/Home.jsx:52-62 | a fetched document becomes a client event whose day is its full date's day |
| Home.NormalizeRoundTrip | src/FrontEnd/components/Home.jsx:52-62 | normalising loses nothing: the document comes back from its event, and a coherent event from its document |
| Home.FetchedEvents | src/FrontEnd/components/Home.jsx:50-63 | the fetched list has one event per document, in order, each standing for that document |
| Home.MonthViewEvents | src/FrontEnd/components/Home.jsx:448-452 | the month grid receives exactly the events whose full date is in the displayed month and year |
| Home.SaveRequest | src/FrontEnd/components/Home.jsx:75-88 | no request without a room; otherwise it carries the room, the title and the id, and its date is the displayed month's year (read as 19xx when it is 0..99) and month with the given day, or null without a day |
| Home.SaveRequestOnDate | src/FrontEnd/components/Home.jsx:82-88 | the request carries the room, the title, the id and exactly the given date |
| Home.SaveRequestOnDateAgrees | src/FrontEnd/components/Home.jsx:82-88 | for a date in the displayed month, its year as the constructor reads it, sending the date is the same as rebuilding it from its day |
| Home.ReconcileSave | src/FrontEnd/components/Home.jsx:91-129 | a failed call leaves the list; an update replaces exactly the entries with the id and keeps the length; a create appends one normalised entry after the unchanged list |
| Home.ReconcileDelete | src/FrontEnd/components/Home.jsx:178-185 | a successful delete drops exactly the entries with the id; a failed one leaves the list |
| Home.ReconcileDeleteKeepsOrder | src/FrontEnd/components/Home.jsx:181 | the delete filter keeps the survivors in their order |
| Home.CloseModal | src/FrontEnd/components/Home.jsx:145-148 | closing hides the modal and clears the edit target, keeping the selected day |
| ClientModel.AddClick | src/FrontEnd/components/Home.jsx:405-409 | the header's Add Event selects the displayed day and opens the modal, leaving the edit target as it was; the week view's "+ Add Event" (DetailedEventView.jsx lines 85-88) does the same with the column's date |
| EventModal.OrElse | src/FrontEnd/components/EventModal.jsx:28-29 | `value \|\| fallback` gives the value exactly when it is truthy |
| EventModal.Prefill | src/FrontEnd/components/EventModal.jsx:10-31 | create mode starts from the empty green form; the slot placeholder fills only its two times |
| EventModal.PrefillOfEvent | src/FrontEnd/components/EventModal.jsx:17-31 | editing pre-fills the title, times and description (empty when absent) and the colour, which falls back to green exactly when it is empty |
| EventModal.Save | src/FrontEnd/components/EventModal.jsx:33-49 | a blank title keeps the modal open and sends nothing; otherwise the form is sent with the target's id and day, or with no id and the selected day when creating, or with neither for the slot placeholder |
| EventModal.TitleCheckedTrimmedSentAsTyped | src/FrontEnd/components/EventModal.jsx:34-40 | a title that is not all whitespace is accepted and sent untrimmed |
| EventModal.SaveWithDayFallback | src/FrontEnd/components/EventModal.jsx:38-48 | the corrected save always sends a day when one is selected, and the slot placeholder sends the selected day |
| EventModal.SaveWithDayFallbackAgrees | src/FrontEnd/components/EventModal.jsx:41 | the correction changes nothing when creating or editing an existing event |
| EventModal.Delete | src/FrontEnd/components/EventModal.jsx:51-56 | the delete is requested, with the target's id, exactly when the target is an event with a non-empty id |
| EventModal.TrashClick | src/FrontEnd/components/EventModal.jsx:75-78 | the trash button exists only when editing and opens the confirmation |
| EventModal.CancelDelete | src/FrontEnd/components/EventModal.jsx:229 | cancelling the confirmation returns to the form |
| EventStore.NewDocument | src/BackEnd/models/Event.js:3-10 | a document is valid exactly when it has a non-empty title and a date; the failure names exactly the missing paths; an absent colour defaults to green |
| EventStore.Save | src/BackEnd/routes/events.js:19-54 | 200 exactly for a truthy known `_id`, 404 for an unknown one, 201 for a valid create and 400 otherwise; errors leave the store, and every other record is kept |
| EventStore.SaveUpdatesExisting | src/BackEnd/routes/events.js:24-33 | an update keeps the id and the key set, overwrites exactly the fields sent with a value, and touches no other record |
| EventStore.SaveUnknownIdNotFound | src/BackEnd/routes/events.js:28-31 | an update of an unknown id is a 404 with the store unchanged |
| EventStore.SaveCreatesNew | src/BackEnd/routes/events.js:37-49 | a create adds exactly one record under the fresh id, copying only the seven fields, with the colour green exactly when none or green was given |
| EventStore.SaveCreateRejected | src/BackEnd/routes/events.js:47-53 | a create without a title or a date is a 400 naming the missing paths, and the store is unchanged |
| EventStore.Get | src/BackEnd/routes/events.js:57-67 | the record is found exactly when its id is stored |
| EventStore.Delete | src/BackEnd/routes/events.js:70-80 | deleting removes exactly that id, keeps every other record, and is a 404 for an absent id |
| EventStore.DeleteThenGetNotFound | src/BackEnd/routes/events.js:57-80 | after a delete the id is neither found nor deletable again |
| EventStore.DeleteRemovesExactlyOne | src/BackEnd/routes/events.js:72-76 | deleting a stored id is removing it from the map; deleting an absent one changes nothing |
| EventStore.List | src/BackEnd/routes/events.js:7-16 | with a room, exactly that room's records; without one, every record |
| EventStore.ListPartitionsRooms | src/BackEnd/routes/events.js:9-11 | a room's listing holds only its records, two rooms' listings are disjoint, and without a room every record is listed |
| EventStore.CreatedIsListedInItsRoom | src/BackEnd/routes/events.js:37-49 | an event created with a room is listed under that room |
| System.SaveCallResult | src/BackEnd/services/api.js:14-47 | the call returns the document exactly on 200 and 201; 404 and 400 throw |
| System.Send | src/FrontEnd/components/Home.jsx:74-133 | no request, or a rejected one, leaves the list and the store as they were |
| System.Submit | src/FrontEnd/components/EventModal.jsx:47-48 | a blank title changes nothing; otherwise the modal closes and clears its target at once, whatever the call returns |
| System.SaveClick | src/FrontEnd/components/EventModal.jsx:33-49 | clicking Save with a blank title changes nothing, and with any other title closes the modal |
| System.DeleteClick | src/FrontEnd/components/EventModal.jsx:51-56 | confirming a delete removes exactly the target's id from the store and its entries from the list, and closes the modal |
| System.UpdateKeepsMirror | src/FrontEnd/components/Home.jsx:92-108 | a returned update keeps the list equal to the room's documents |
| System.CreateKeepsMirror | src/FrontEnd/components/Home.jsx:109-125 | a returned create keeps the list equal to the room's documents |
| System.SendKeepsMirror | src/FrontEnd/components/Home.jsx:74-133 | sending a request for the room keeps the list equal to the room's documents, whatever the reply |
| System.SaveKeepsMirror | src/FrontEnd/components/Home.jsx:74-133 | every Save click keeps the list equal to the room's documents |
| System.CorrectedSavesKeepMirror | src/FrontEnd/components/Home.jsx:82-88 | the corrected saves keep the list equal to the room's documents as well |
| System.DeleteKeepsMirror | src/FrontEnd/components/Home.jsx:178-185 | every delete keeps the list equal to the room's documents |
| System.FetchMirrors | src/FrontEnd/components/Home.jsx:48-63 | the list fetched from the room's listing is equal to the room's documents |
| System.MirrorsIsTheListing | src/BackEnd/routes/events.js:9-11 | a list equal to the room's documents stands for exactly the room's listing |
| System.HandlersKeepClosedHasNoTarget | src/FrontEnd/components/Home.jsx:127-148 | after any click, a closed modal has no edit target |
| System.AddClickOpensCreateMode | src/FrontEnd/components/Home.jsx:405-409 | an add button pressed with the modal closed opens it in create mode on the shown day |
| System.SlotSaveIsLost | src/FrontEnd/components/EventModal.jsx:39-41 | a save from an empty hour slot sends a null date, the server refuses it, and the list and the store stay as they were while the modal closes |
| System.SlotSaveShowsInItsRow | src/FrontEnd/components/DetailedEventView.jsx:154-159 | with the corrected save, the slot's event is stored in the room on the constructor's date for the displayed day; outside years 0..99 that is the displayed date, and the event shows in its hour row |
| System.SendUpdatesEntry | src/FrontEnd/components/Home.jsx:92-108 | an update of a listed event stores the updated record and lists its normalised form |
| System.EditDatedInDisplayedMonth | src/FrontEnd/components/Home.jsx:82-86 | an edit is stored with its day of the month rebuilt in the displayed month by the constructor, and the new title and colour |
| System.EditKeepsDateIffDisplayedMonth | src/FrontEnd/components/Home.jsx:82-86 | an edit keeps the event's date exactly when the event lies in the displayed month, its year as the constructor reads it |
| System.WeekAddDatesInDisplayedMonth | src/FrontEnd/components/DetailedEventView.jsx:85-88 | "+ Add Event" in a week column creates an event on the column's date exactly when that column lies in the displayed month, its year as the constructor reads it |
| System.StraddlingWeek | src/FrontEnd/components/DetailedEventView.jsx:22-37 | the week of Thursday 2025-01-30 ends on 2025-02-01 |
| System.ThursdayJan30WeekEnd | src/FrontEnd/components/DetailedEventView.jsx:22-37 | whenever January 30 is a Thursday, its week ends on February 1 |
| System.StraddlingWeekEditMovesEvent | src/FrontEnd/components/DetailedEventView.jsx:66-70 | editing an event of 2025-02-01 from the week of 2025-01-30 stores it on 2025-01-01 |
| System.EditOnDateKeepsDate | src/FrontEnd/components/Home.jsx:82-88 | with the corrected request, an edit keeps the event's date |
| System.WeekAddOnColumnDate | src/FrontEnd/components/DetailedEventView.jsx:85-88 | with the corrected request, "+ Add Event" creates the event on the column's date |
| System.SaveUnderSchema | src/BackEnd/models/Event.js:3-10 | when undeclared paths are dropped, a created document has no room and an update keeps the stored room |
| System.CreatedIsNotListedUnderSchema | src/BackEnd/routes/events.js:44 | when undeclared paths are dropped, an event created with a room is not listed under that room |
| System.SaveUnderSchemaKeepsRoomless | src/BackEnd/models/Event.js:3-10 | saving through the schema never stores a room |
| System.ListUnderSchema | src/BackEnd/routes/events.js:10-11 | with `strictQuery` on the room filter is stripped and every document is listed; with it off only the documents stored with the room are |
| System.RoomListingUnderSchema | src/BackEnd/routes/events.js:10-11 | on a store written through the schema, a room's listing is empty with `strictQuery` off and is every document with it on |
| System.MirrorsCoherent | src/FrontEnd/components/Home.jsx:55-60 | every listed event's day is its full date's day |
| System.MonthCellShowsItsDate | src/FrontEnd/components/Home.jsx:448-452 | a month cell shows exactly the events of its calendar date, the same ones the day and week views show for it |
| System.UntouchedEditKeepsEvent | src/FrontEnd/components/CalendarGrid.jsx:17-21 | opening an event of the displayed month and saving it untouched keeps its title and colour, and keeps its date exactly when the displayed year is outside 0..99 |

## Left out

- Google sign-in, the `User` model, room selection and the app wiring are not part of this model. They only make network calls and set state.
- `services/api.js` is modelled only by what a call returns: `System.SaveCallResult` maps a reply to the document or to a thrown error. The `fetch` itself and its JSON encoding are left out.
- The day-mode header and the day view's title use `toLocaleDateString`. That is a locale library, so they are left out.
- The Today button and the "today" mark read the wall clock. The current date is a parameter instead.
- Time zones, daylight saving and the time of day are left out: a date is a calendar day.
- The fetch effect's loading flag and console logging are left out. So is the race between overlapping fetches, where the last one to resolve wins.
- The save call is not awaited, so a reply can arrive after the modal was reopened and close it again. This race is left out; `System.Submit` applies the reply at once.
- The store's listing is a map, so MongoDB's cursor order is not modelled. `System.ListingOf` lets the fetched list be in any order.
- A malformed `_id` is left out: every id string is taken as a well-formed ObjectId, and an unknown one answers 404. In the source, a cast error in an update is caught and answered with 400 (`src/BackEnd/routes/events.js:50-53`). In `GET /:id` and `DELETE` it is answered with 500 (`src/BackEnd/routes/events.js:64-65` and `77-78`).
- `Number()` of a non-numeric `roomId` query is left out: rooms are integers. A query value of "0" is a non-empty string, so it still filters. Room 0 would count as no room only in the page's checks (`src/FrontEnd/components/Home.jsx:40` and `75`), and room selection offers only rooms 1 to 3.
- Mongoose update validators, and the `id` key the client also sends in an update body, are left out. An update overwrites the fields present in the body.
- JavaScript `Date` has a range of about 275,000 years, and `parseInt` loses precision on long numerals. Both limits are left out: integers are unbounded.
- A `null` selected day would give day 0 of the month. No click leaves the day null, so this case is left out.
- With no room selected, the page redirects. The model only says no request is made.
- The week view shows "+ Add Event" only in empty columns. The model lets it be clicked on any column.
- The header's event count, dark mode and styling are left out.
- System.UntouchedEditKeepsEvent: states only that the title, a non-empty colour and (outside years 0..99) the date are kept, not every field.
- EventStore.List: the listing is a map restricted to the room, not a sequence in store order.
- EventStore.Save: persists `roomId`, as a schema that declares it would. Mongoose's strict mode drops the undeclared path under the schema as written. That behaviour is modelled only by `System.SaveUnderSchema` and `System.ListUnderSchema`, and `System.Mirrors` is not claimed for it.
- EventStore.SaveUpdatesExisting: a payload field is either absent or has a value. An explicit `null` in an update body is modelled as an absent key, so the stored value is kept. Mongoose would set that field to null and answer 200.

## Findings

| source | as written | input that shows it | evidently intended | confidence | as-written member | corrected member |
|---|---|---|---|---|---|---|
| src/FrontEnd/components/EventModal.jsx:39-41 | the slot placeholder is truthy, so `date: eventToEdit.date` is undefined; `new Date(y, m, undefined)` is an invalid date, which is sent as null; the create fails with 400 and the error is only logged, while the modal has already closed | day view, click the empty 09:00 slot, type a title, Save | the event is created on the displayed day at the slot's time | high; not executed | System.SlotSaveIsLost | System.SlotSaveShowsInItsRow |
| src/FrontEnd/components/Home.jsx:82-86 | the saved date is rebuilt from the day of the month inside the displayed month, even when the event or the week column lies in another month | week view on 2025-01-30, edit the event of 2025-02-01 shown in Saturday's column | the event keeps its date; "+ Add Event" creates on the column's date | high; not executed | System.StraddlingWeekEditMovesEvent | System.EditOnDateKeepsDate |
| src/BackEnd/models/Event.js:3-10 | `roomId` is written on create but the schema does not declare it, so strict mode drops it and no document carries a room. The room query then depends on `strictQuery`: with it off (Mongoose 5, and 7 on) the filter matches nothing and the room's listing never shows the event; with it on (the Mongoose 6 default) the filter is stripped and every room lists every event | create an event in room 1, then list room 1 and room 2 | events are stored with their room and listed only under it | medium (the outcome depends on the Mongoose version); not executed | System.RoomListingUnderSchema | EventStore.CreatedIsListedInItsRoom |
