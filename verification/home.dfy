/**
 * The calendar page (Home.jsx): navigation between months, weeks and days, the header text,
 * the normalisation of fetched documents into the page's event list, the body sent when the
 * modal saves, and how the list is brought up to date after a save or a delete.
 *
 * The network calls are not modelled: their outcome is a parameter (`CallResult`), and the
 * modules for the server (EventStore) and for whole interactions (System) connect the two.
 */
module Home {
  import opened Wrappers
  import opened CivilDate
  import opened Text
  import opened ClientModel
  import opened EventStore
  import DetailedView
  import Seqs

  datatype ViewMode = MonthView | WeekView | DayView

  // ---------------------------------------------------------------------------
  // Navigation
  // ---------------------------------------------------------------------------

  /**
   * `handlePrevious`: the 1st of the month before in month mode (`new Date(y, m - 1, 1)`);
   * otherwise the date with 7 or 1 subtracted from its day of the month, rolled over.
   */
  ghost function Previous(mode: ViewMode, cd: Date): (r: Date)
    requires Valid(cd)
    ensures Valid(r)
  {
    match mode
    case MonthView => NewDate(cd.year, cd.month0 - 1, 1)
    case WeekView => MakeDate(cd.year, cd.month0, cd.day - 7)
    case DayView => MakeDate(cd.year, cd.month0, cd.day - 1)
  }

  /** `handleNext`: the mirror image of `handlePrevious`. */
  ghost function Next(mode: ViewMode, cd: Date): (r: Date)
    requires Valid(cd)
    ensures Valid(r)
  {
    match mode
    case MonthView => NewDate(cd.year, cd.month0 + 1, 1)
    case WeekView => MakeDate(cd.year, cd.month0, cd.day + 7)
    case DayView => MakeDate(cd.year, cd.month0, cd.day + 1)
  }

  /**
   * Month navigation lands on the 1st of the adjacent month, rolling the year at December and
   * January. The year is the one the constructor reads: the displayed year itself, except that
   * a year 0..99 is taken as 1900..1999.
   */
  lemma MonthNavigation(cd: Date)
    requires Valid(cd)
    ensures var y := ConstructorYear(cd.year);
      Next(MonthView, cd) == if cd.month0 == 11 then Date(y + 1, 0, 1) else Date(y, cd.month0 + 1, 1)
    ensures var y := ConstructorYear(cd.year);
      Previous(MonthView, cd) == if cd.month0 == 0 then Date(y - 1, 11, 1) else Date(y, cd.month0 - 1, 1)
  {
    MakeDateNextMonth(ConstructorYear(cd.year), cd.month0);
    MakeDatePreviousMonth(ConstructorYear(cd.year), cd.month0);
  }

  /** Week navigation moves by exactly seven days and day navigation by exactly one. */
  lemma StepNavigation(cd: Date)
    requires Valid(cd)
    ensures Next(WeekView, cd) == AddDays(cd, 7) && Previous(WeekView, cd) == AddDays(cd, -7)
    ensures Next(DayView, cd) == AddDays(cd, 1) && Previous(DayView, cd) == AddDays(cd, -1)
  {
    SetDateForward(cd, 7);
    SetDateBack(cd, 7);
    SetDateForward(cd, 1);
    SetDateBack(cd, 1);
  }

  /** A week step keeps the weekday, so the displayed week moves by exactly one week. */
  lemma WeekStepKeepsWeekday(cd: Date)
    requires Valid(cd)
    ensures Weekday(Next(WeekView, cd)) == Weekday(cd)
    ensures Weekday(Previous(WeekView, cd)) == Weekday(cd)
    ensures WeekStart(Next(WeekView, cd)) == AddDays(WeekStart(cd), 7)
  {
    StepNavigation(cd);
    WeekdayWeekApart(cd);
    WeekStartWeekLater(cd);
  }

  /** In week and day mode, going back undoes going forward and going forward undoes going back. */
  lemma PreviousUndoesNext(mode: ViewMode, cd: Date)
    requires Valid(cd) && mode != MonthView
    ensures Previous(mode, Next(mode, cd)) == cd
    ensures Next(mode, Previous(mode, cd)) == cd
  {
    var n := Next(mode, cd);
    var p := Previous(mode, cd);
    StepNavigation(cd);
    StepNavigation(n);
    StepNavigation(p);
    var k := if mode == WeekView then 7 else 1;
    AddDaysInverse(cd, k);
    AddDaysInverse(cd, -k);
  }

  /**
   * In month mode, going forward and back lands on the 1st of the month displayed before (as the
   * constructor reads its year), in both orders, except where the round trip crosses into a year
   * 0..99 and the second step then jumps to the 1900s: from December of year -1, and from
   * January of year 100.
   */
  lemma MonthRoundTrip(cd: Date)
    requires Valid(cd)
    ensures !(cd.year == -1 && cd.month0 == 11) ==>
      Previous(MonthView, Next(MonthView, cd)) == Date(ConstructorYear(cd.year), cd.month0, 1)
    ensures cd.year == -1 && cd.month0 == 11 ==> Previous(MonthView, Next(MonthView, cd)) == Date(1899, 11, 1)
    ensures !(cd.year == 100 && cd.month0 == 0) ==>
      Next(MonthView, Previous(MonthView, cd)) == Date(ConstructorYear(cd.year), cd.month0, 1)
    ensures cd.year == 100 && cd.month0 == 0 ==> Next(MonthView, Previous(MonthView, cd)) == Date(2000, 0, 1)
  {
    MonthNavigation(cd);
    MonthNavigation(Next(MonthView, cd));
    MonthNavigation(Previous(MonthView, cd));
  }

  // ---------------------------------------------------------------------------
  // Header text
  // ---------------------------------------------------------------------------

  const MonthNames: seq<string> :=
    ["January", "February", "March", "April", "May", "June",
     "July", "August", "September", "October", "November", "December"]

  /** `monthNames[m].substring(0, 3)`. */
  function Abbrev(m0: int): string
    requires 0 <= m0 < 12
  {
    MonthNames[m0][..3]
  }

  const Abbreviations: seq<string> :=
    ["Jan", "Feb", "Mar", "Apr", "May", "Jun", "Jul", "Aug", "Sep", "Oct", "Nov", "Dec"]

  lemma AbbrevIsListed(m0: int)
    requires 0 <= m0 < 12
    ensures Abbrev(m0) == Abbreviations[m0]
  {
    if m0 == 0 {} else if m0 == 1 {} else if m0 == 2 {} else if m0 == 3 {} else if m0 == 4 {}
    else if m0 == 5 {} else if m0 == 6 {} else if m0 == 7 {} else if m0 == 8 {} else if m0 == 9 {}
    else if m0 == 10 {} else {}
  }

  /** The twelve abbreviations are pairwise different, and so are the twelve names. */
  lemma AbbrevsDistinct()
    ensures forall i, j :: 0 <= i < j < 12 ==> Abbrev(i) != Abbrev(j)
    ensures Seqs.Distinct(MonthNames)
  {
    forall i, j | 0 <= i < j < 12 ensures Abbrev(i) != Abbrev(j) {
      AbbrevIsListed(i);
      AbbrevIsListed(j);
    }
  }

  lemma AbbrevInjective(a: int, b: int)
    requires 0 <= a < 12 && 0 <= b < 12
    ensures Abbrev(a) == Abbrev(b) <==> a == b
  {
    AbbrevsDistinct();
    if a < b {
      assert Abbrev(a) != Abbrev(b);
    } else if b < a {
      assert Abbrev(b) != Abbrev(a);
    }
  }

  /** No month name contains a space. */
  lemma MonthNamesHaveNoSpace(m0: int)
    requires 0 <= m0 < 12
    ensures ' ' !in MonthNames[m0]
  {
  }

  /** The month-mode header: the month's name and the year. */
  function MonthHeader(cd: Date): string
    requires 0 <= cd.month0 < 12
  {
    MonthNames[cd.month0] + " " + IntToString(cd.year)
  }

  /** Reading a month header back: the month whose name is before the space, and the year after it. */
  function ParseMonthHeader(s: string): Option<(int, int)> {
    var fields := Split(s, ' ');
    if |fields| != 2 then None
    else
      match Seqs.IndexOf(MonthNames, fields[0])
      case None => None
      case Some(m0) =>
        match ParseInt(fields[1])
        case None => None
        case Some(y) => Some((m0, y))
  }

  /** The month header names the displayed month and year and nothing else: reading it back gives them. */
  lemma MonthHeaderRoundTrip(cd: Date)
    requires 0 <= cd.month0 < 12
    ensures ParseMonthHeader(MonthHeader(cd)) == Some((cd.month0, cd.year))
  {
    var name := MonthNames[cd.month0];
    var yearText := IntToString(cd.year);
    MonthNamesHaveNoSpace(cd.month0);
    IntToStringExcludes(cd.year, ' ');
    assert MonthHeader(cd) == name + [' '] + yearText;
    SplitTwoFields(name, yearText, ' ');
    AbbrevsDistinct();
    Seqs.IndexOfDistinct(MonthNames, cd.month0);
    ParseIntIntToString(cd.year);
  }

  /** Different months, or the same month of different years, never share a header. */
  lemma MonthHeaderInjective(a: Date, b: Date)
    requires 0 <= a.month0 < 12 && 0 <= b.month0 < 12
    requires MonthHeader(a) == MonthHeader(b)
    ensures a.month0 == b.month0 && a.year == b.year
  {
    MonthHeaderRoundTrip(a);
    MonthHeaderRoundTrip(b);
  }

  /**
   * The week-mode header as the page computes it: the week start is the current date moved
   * back by its weekday, the week end that start with six added, and the end's month is
   * written only when its abbreviation differs from the start's.
   */
  ghost function WeekHeader(cd: Date): string
    requires Valid(cd)
  {
    var weekStart := DetailedView.StartOfWeek(cd);
    var weekEnd := MakeDate(weekStart.year, weekStart.month0, weekStart.day + 6);
    var startMonth := Abbrev(weekStart.month0);
    var endMonth := Abbrev(weekEnd.month0);
    if startMonth == endMonth then
      startMonth + " " + IntToString(weekStart.day) + " - " + IntToString(weekEnd.day) + ", " + IntToString(weekStart.year)
    else
      startMonth + " " + IntToString(weekStart.day) + " - " + endMonth + " " + IntToString(weekEnd.day)
      + ", " + IntToString(weekStart.year)
  }

  /**
   * The header of the range from `a` to `b`: the end's month is named only when it is another
   * month than the start's, and the year shown is the start's.
   */
  function RangeText(a: Date, b: Date): string
    requires Valid(a) && Valid(b)
  {
    if a.month0 == b.month0 then
      Abbrev(a.month0) + " " + IntToString(a.day) + " - " + IntToString(b.day) + ", " + IntToString(a.year)
    else
      Abbrev(a.month0) + " " + IntToString(a.day) + " - " + Abbrev(b.month0) + " " + IntToString(b.day)
      + ", " + IntToString(a.year)
  }

  /**
   * The week header shows the range from the Sunday on or before the current date to the
   * Saturday after it.
   */
  lemma WeekHeaderIsTheWeek(cd: Date)
    requires Valid(cd)
    ensures WeekHeader(cd) == RangeText(WeekStart(cd), AddDays(WeekStart(cd), 6))
  {
    var ws := DetailedView.StartOfWeek(cd);
    DetailedView.WeekDatesStart(cd);
    SetDateForward(ws, 6);
    var we := MakeDate(ws.year, ws.month0, ws.day + 6);
    AbbrevInjective(ws.month0, we.month0);
  }

  // ---------------------------------------------------------------------------
  // The event list
  // ---------------------------------------------------------------------------

  /**
   * The normalising map of a fetched or returned document: `id` from `_id`, `date` the day of
   * the month of the stored date, `fullDate` the stored date, every other field copied.
   */
  function Normalize(id: Id, rec: Record): (e: ClientEvent)
    ensures Valid(rec.date) ==> Coherent(e)
  {
    ClientEvent(id, rec.title, rec.date.day, rec.startTime, rec.endTime, rec.description, rec.color, rec.date, rec.roomId)
  }

  /** The document an event of the list stands for. */
  function Stored(e: ClientEvent): (Id, Record) {
    (e.id, Record(e.title, e.fullDate, e.startTime, e.endTime, e.description, e.color, e.roomId))
  }

  /** Normalisation loses nothing: a document is recovered from its event, and a coherent event from its document. */
  lemma NormalizeRoundTrip(id: Id, rec: Record, e: ClientEvent)
    ensures Stored(Normalize(id, rec)) == (id, rec)
    ensures Coherent(e) ==> Normalize(Stored(e).0, Stored(e).1) == e
  {
  }

  /** The list the page keeps after a fetch: every document normalised, in the order received. */
  function FetchedEvents(docs: seq<(Id, Record)>): (r: seq<ClientEvent>)
    ensures |r| == |docs|
    ensures forall i :: 0 <= i < |docs| ==> Stored(r[i]) == docs[i]
  {
    seq(|docs|, i requires 0 <= i < |docs| => Normalize(docs[i].0, docs[i].1))
  }

  function InDisplayedMonth(cd: Date): ClientEvent -> bool {
    (e: ClientEvent) => e.fullDate.month0 == cd.month0 && e.fullDate.year == cd.year
  }

  /** The events handed to the month grid: those whose full date is in the displayed month and year, in list order. */
  function MonthViewEvents(events: seq<ClientEvent>, cd: Date): (r: seq<ClientEvent>)
    ensures forall e :: e in r <==> e in events && e.fullDate.month0 == cd.month0 && e.fullDate.year == cd.year
  {
    Seqs.Filter(events, InDisplayedMonth(cd))
  }

  // ---------------------------------------------------------------------------
  // Saving and deleting
  // ---------------------------------------------------------------------------

  /**
   * The body `handleEventCreate` sends: none when no room is selected; otherwise the modal's
   * data with the date rebuilt as that day of the displayed month (`null`, so absent, when the
   * modal gave no day; the constructor reads a displayed year 0..99 as 1900..1999) and the
   * room, with `_id` set exactly when the data carries an id.
   */
  ghost function SaveRequest(room: Option<int>, cd: Date, data: EventData): (r: Option<Payload>)
    requires Valid(cd)
    ensures r.None? <==> room.None?
    ensures r.Some? ==> r.value.roomId == room && r.value.title == Some(data.title)
    ensures r.Some? ==> (Truthy(r.value.id) <==> Truthy(data.id)) && (Truthy(data.id) ==> r.value.id == data.id)
    ensures r.Some? && data.date.None? ==> r.value.date.None?
    ensures r.Some? && data.date.Some? && Valid(Date(ConstructorYear(cd.year), cd.month0, data.date.value))
            ==> r.value.date == Some(Date(ConstructorYear(cd.year), cd.month0, data.date.value))
    ensures r.Some? ==> (r.value.date.None? <==> data.date.None?)
  {
    if room.None? then None
    else
      var fullDate :=
        if data.date.Some? then
          MakeDateOfDay(ConstructorYear(cd.year), cd.month0, data.date.value);
          Some(NewDate(cd.year, cd.month0, data.date.value))
        else None;
      Some(Payload(
        if Truthy(data.id) then data.id else None,
        Some(data.title), fullDate, Some(data.startTime), Some(data.endTime),
        Some(data.description), Some(data.color), room))
  }

  /**
   * The body with the evident intent: the date is the full date the modal was opened for (the
   * edited event's, or the clicked column's or cell's), not that day of the month rebuilt
   * inside the displayed month. Everything else is as `SaveRequest` builds it.
   */
  function SaveRequestOnDate(room: Option<int>, date: Option<Date>, data: EventData): (r: Option<Payload>)
    ensures r.None? <==> room.None?
    ensures r.Some? ==> r.value.roomId == room && r.value.title == Some(data.title) && r.value.date == date
    ensures r.Some? ==> (Truthy(r.value.id) <==> Truthy(data.id)) && (Truthy(data.id) ==> r.value.id == data.id)
  {
    if room.None? then None
    else
      Some(Payload(
        if Truthy(data.id) then data.id else None,
        Some(data.title), date, Some(data.startTime), Some(data.endTime),
        Some(data.description), Some(data.color), room))
  }

  /** Inside the displayed month the two bodies are the same: the fix changes only dates of other months. */
  lemma SaveRequestOnDateAgrees(room: Option<int>, cd: Date, data: EventData, date: Date)
    requires Valid(cd) && Valid(date) && date.year == ConstructorYear(cd.year) && date.month0 == cd.month0
    requires data.date == Some(date.day)
    ensures SaveRequestOnDate(room, Some(date), data) == SaveRequest(room, cd, data)
  {
    MakeDateOfValid(date);
  }

  /** What a call to the server came back with: an error, or the saved document and its id. */
  datatype CallResult = CallFailed | CallReturned(id: Id, rec: Record)

  /** The list after a save: the saved document replaces the edited entries or is appended. */
  function ReconcileSave(events: seq<ClientEvent>, data: EventData, result: CallResult): (r: seq<ClientEvent>)
    ensures result.CallFailed? ==> r == events
    ensures result.CallReturned? && Truthy(data.id) ==>
      && |r| == |events|
      && forall i :: 0 <= i < |events| ==>
           r[i] == if events[i].id == data.id.value then Normalize(result.id, result.rec) else events[i]
    ensures result.CallReturned? && !Truthy(data.id) ==>
      |r| == |events| + 1 && r[..|events|] == events && r[|events|] == Normalize(result.id, result.rec)
  {
    match result
    case CallFailed => events
    case CallReturned(id, rec) =>
      if Truthy(data.id) then
        seq(|events|, i requires 0 <= i < |events| =>
          if events[i].id == data.id.value then Normalize(id, rec) else events[i])
      else events + [Normalize(id, rec)]
  }

  function IdIsNot(id: Id): ClientEvent -> bool {
    (e: ClientEvent) => e.id != id
  }

  /** The list after a delete: every entry with that id is dropped when the call succeeded. */
  function ReconcileDelete(events: seq<ClientEvent>, id: Id, succeeded: bool): (r: seq<ClientEvent>)
    ensures !succeeded ==> r == events
    ensures succeeded ==> forall e :: e in r <==> e in events && e.id != id
    ensures succeeded ==> r == Seqs.Filter(events, IdIsNot(id))
  {
    if succeeded then Seqs.Filter(events, IdIsNot(id)) else events
  }

  /** A delete keeps the surviving entries in their order: deleting from a concatenation deletes from each part. */
  lemma ReconcileDeleteKeepsOrder(a: seq<ClientEvent>, b: seq<ClientEvent>, id: Id)
    ensures ReconcileDelete(a + b, id, true) == ReconcileDelete(a, id, true) + ReconcileDelete(b, id, true)
  {
    Seqs.FilterAppend(a, b, IdIsNot(id));
  }

  // ---------------------------------------------------------------------------
  // The modal's page state
  // ---------------------------------------------------------------------------

  /** `handleCloseModal`: the modal closes and forgets what it was editing. */
  function CloseModal(ui: UiState): (r: UiState)
    ensures !r.showModal && r.eventToEdit.None? && r.selectedDay == ui.selectedDay
  {
    ui.(showModal := false, eventToEdit := None)
  }

  /** A closed modal has nothing to edit. */
  predicate ClosedHasNoTarget(ui: UiState) {
    !ui.showModal ==> ui.eventToEdit.None?
  }
}
