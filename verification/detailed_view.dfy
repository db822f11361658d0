/**
 * The week and day views (DetailedEventView.jsx): the 12-hour time formatting, the events of
 * a date, the seven dates of the displayed week, the 24 hour rows of the day view, and what
 * clicking an event, an empty day or an empty hour slot does to the page state.
 */
module DetailedView {
  import opened Wrappers
  import opened CivilDate
  import opened Text
  import opened ClientModel
  import Seqs

  // ---------------------------------------------------------------------------
  // formatTime
  // ---------------------------------------------------------------------------

  /** JavaScript's `a % b` for a positive divisor: the remainder takes the sign of the dividend. */
  function JsRemainder(a: int, b: int): (r: int)
    requires b > 0
    ensures a >= 0 ==> r == a % b
    ensures -b < r < b
  {
    if a >= 0 then a % b else -((-a) % b)
  }

  /** `hour % 12 || 12` rendered: a zero or `NaN` remainder shows as 12. */
  function HourText(hour: Option<int>): string {
    if hour.None? then "12"
    else
      var r := JsRemainder(hour.value, 12);
      if r == 0 then "12" else IntToString(r)
  }

  /** `hour >= 12 ? 'PM' : 'AM'`: `NaN` compares false and so gives AM. */
  function Meridiem(hour: Option<int>): string {
    if hour.Some? && hour.value >= 12 then "PM" else "AM"
  }

  /**
   * `formatTime(timeString)`: empty for an absent or empty time; otherwise the hour field
   * (the text before the first `:`) on the 12-hour clock, the minutes field as it stands
   * (`undefined` when there is no `:`), and the meridiem.
   */
  function FormatTime(ts: Option<string>): (r: string)
    ensures r == "" <==> !Truthy(ts)
  {
    if !Truthy(ts) then ""
    else
      var fields := Split(ts.value, ':');
      var hour := ParseInt(fields[0]);
      var minutes := if |fields| > 1 then fields[1] else "undefined";
      var r := HourText(hour) + ":" + minutes + " " + Meridiem(hour);
      assert r[|HourText(hour)|] == ':';
      r
  }

  /** The hour of the 12-hour clock for an hour of the day: 12 for midnight and noon. */
  function Clock12(h: nat): nat {
    if h % 12 == 0 then 12 else h % 12
  }

  /** `formatTime` of a time whose fields are an hour that parses to `h` and a minutes field `mm`. */
  lemma FormatTimeOfFields(ts: string, hh: string, mm: string, h: int)
    requires ts != "" && Split(ts, ':') == [hh, mm] && ParseInt(hh) == Some(h)
    ensures FormatTime(Some(ts)) == HourText(Some(h)) + ":" + mm + " " + Meridiem(Some(h))
  {
  }

  /** For a non-negative hour, the shown hour is the hour of the 12-hour clock. */
  lemma HourTextOfDayHour(h: nat)
    ensures HourText(Some(h)) == NatToString(Clock12(h))
  {
  }

  /** The time text `HH:mm` with the hour zero-padded to two digits. */
  function ClockTime(h: nat, mm: string): string {
    Pad2(h) + ":" + mm
  }

  /** `HH:mm` with a two-digit hour splits into the hour and the minutes, and the hour parses back. */
  lemma ClockTimeFields(h: nat, mm: string, ts: string)
    requires ':' !in mm && ts == ClockTime(h, mm)
    ensures ts != "" && Split(ts, ':') == [Pad2(h), mm] && ParseInt(Pad2(h)) == Some(h)
  {
    var hh := Pad2(h);
    DigitsExclude(hh, ':');
    assert ts == hh + [':'] + mm;
    SplitTwoFields(hh, mm, ':');
    ParseIntNumeral(hh, "");
    assert hh + "" == hh;
  }

  /**
   * A time `HH:mm` formats as the 12-hour clock hour, the minutes unchanged, AM before noon
   * and PM from noon on; an hour past 23 is not refused and counts on from noon.
   */
  lemma FormatTimeOfClock(h: nat, mm: string)
    requires ':' !in mm
    ensures FormatTime(Some(ClockTime(h, mm)))
         == NatToString(Clock12(h)) + ":" + mm + " " + (if h < 12 then "AM" else "PM")
  {
    var ts := ClockTime(h, mm);
    ClockTimeFields(h, mm, ts);
    FormatTimeOfFields(ts, Pad2(h), mm, h);
    HourTextOfDayHour(h);
  }

  /**
   * The end of the last hour slot of the day view, `24:00`, formats the same as noon, the
   * start of the slot of hour 12.
   */
  lemma MidnightEndShowsAsNoon()
    ensures FormatTime(Some(SlotTarget(23).endTime)) == FormatTime(Some(SlotTarget(12).startTime))
  {
    SlotEndShowsAsSlotStart(23, 12);
  }

  /** The end of slot `a` and the start of slot `b` format alike when their 12-hour clock hours and halves agree. */
  lemma SlotEndShowsAsSlotStart(a: nat, b: nat)
    requires Clock12(a + 1) == Clock12(b) && (a + 1 < 12 <==> b < 12)
    ensures FormatTime(Some(SlotTarget(a).endTime)) == FormatTime(Some(SlotTarget(b).startTime))
  {
    assert SlotTarget(a).endTime == ClockTime(a + 1, "00");
    assert SlotTarget(b).startTime == ClockTime(b, "00");
    FormatTimeOfClock(a + 1, "00");
    FormatTimeOfClock(b, "00");
  }

  /** The hour label of the day view's row `hour`. */
  function HourLabel(hour: int): string {
    if hour == 0 then "12 AM"
    else if hour < 12 then IntToString(hour) + " AM"
    else if hour == 12 then "12 PM"
    else IntToString(hour - 12) + " PM"
  }

  /**
   * The row label and the formatted start time of an event at the top of that hour agree:
   * both show the 12-hour clock hour and the same meridiem.
   */
  lemma HourLabelAgreesWithFormatTime(h: nat)
    requires h < 24
    ensures var m := if h < 12 then "AM" else "PM";
      && HourLabel(h) == NatToString(Clock12(h)) + " " + m
      && FormatTime(Some(ClockTime(h, "00"))) == NatToString(Clock12(h)) + ":" + "00" + " " + m
  {
    if h == 0 {
      HourLabelMidnight();
    } else if h < 12 {
      HourLabelMorning(h);
    } else if h == 12 {
      HourLabelNoon();
    } else {
      HourLabelAfternoon(h);
    }
    FormatTimeOfClock(h, "00");
  }

  lemma HourLabelMidnight()
    ensures HourLabel(0) == NatToString(Clock12(0)) + " " + "AM"
  {
  }

  lemma HourLabelMorning(h: nat)
    requires 0 < h < 12
    ensures HourLabel(h) == NatToString(Clock12(h)) + " " + "AM"
  {
  }

  lemma HourLabelNoon()
    ensures HourLabel(12) == NatToString(Clock12(12)) + " " + "PM"
  {
  }

  lemma HourLabelAfternoon(h: nat)
    requires 12 < h < 24
    ensures HourLabel(h) == NatToString(Clock12(h)) + " " + "PM"
  {
    assert Clock12(h) == h - 12;
  }

  // ---------------------------------------------------------------------------
  // Events of a date, and the week
  // ---------------------------------------------------------------------------

  /** `getEventsForDate(date)`: the events whose full date has that day, month and year, in list order. */
  function EventsForDate(events: seq<ClientEvent>, date: Date): (r: seq<ClientEvent>)
    ensures forall e :: e in r <==> e in events && e.fullDate == date
  {
    Seqs.Filter(events, OnDate(date))
  }

  function OnDate(date: Date): ClientEvent -> bool {
    (e: ClientEvent) =>
      e.fullDate.day == date.day && e.fullDate.month0 == date.month0 && e.fullDate.year == date.year
  }

  /**
   * `getWeekDates()`: the date moved back by its weekday, then that date with 0..6 added to
   * its day of the month, each rolled over by the JavaScript date constructor.
   */
  ghost function WeekDates(cd: Date): (r: seq<Date>)
    requires Valid(cd)
    ensures |r| == 7
    ensures forall i :: 0 <= i < 7 ==> Valid(r[i])
  {
    var start := StartOfWeek(cd);
    seq(7, i => DayOfWeekFrom(start, i))
  }

  /** `new Date(currentDate)` with `setDate(currentDate.getDate() - currentDate.getDay())`. */
  ghost function StartOfWeek(cd: Date): (r: Date)
    requires Valid(cd)
    ensures Valid(r)
  {
    MakeDate(cd.year, cd.month0, cd.day - Weekday(cd))
  }

  /** `new Date(start)` with `setDate(start.getDate() + i)`. */
  ghost function DayOfWeekFrom(start: Date, i: int): (r: Date)
    ensures Valid(r)
  {
    MakeDate(start.year, start.month0, start.day + i)
  }

  /** The first column is the Sunday on or before the current date. */
  lemma WeekDatesStart(cd: Date)
    requires Valid(cd)
    ensures StartOfWeek(cd) == WeekStart(cd)
  {
    SetDateBack(cd, Weekday(cd));
  }

  lemma WeekDatesColumn(cd: Date, i: int)
    requires Valid(cd) && 0 <= i < 7
    ensures WeekDates(cd)[i] == AddDays(WeekStart(cd), i)
  {
    var start := StartOfWeek(cd);
    WeekDatesStart(cd);
    assert WeekDates(cd)[i] == DayOfWeekFrom(start, i);
    SetDateForward(start, i);
  }

  /**
   * The week view shows seven consecutive days starting on the Sunday on or before the
   * current date: column `i` is that Sunday plus `i` days, and the current date sits in the
   * column of its weekday.
   */
  lemma WeekDatesAreTheWeek(cd: Date)
    requires Valid(cd)
    ensures forall i :: 0 <= i < 7 ==> WeekDates(cd)[i] == AddDays(WeekStart(cd), i)
    ensures forall i :: 0 <= i < 7 ==> DayNumber(WeekDates(cd)[i]) == DayNumber(cd) - Weekday(cd) + i
    ensures WeekDates(cd)[Weekday(cd)] == cd
  {
    forall i | 0 <= i < 7 ensures WeekDates(cd)[i] == AddDays(WeekStart(cd), i) {
      WeekDatesColumn(cd, i);
    }
    WeekStartReturns(cd);
  }

  /** Column `i` of the week falls on weekday `i` (0 = Sunday). */
  lemma WeekDatesWeekdays(cd: Date)
    requires Valid(cd)
    ensures forall i :: 0 <= i < 7 ==> Weekday(WeekDates(cd)[i]) == i
  {
    forall i | 0 <= i < 7 ensures Weekday(WeekDates(cd)[i]) == i {
      WeekDateWeekday(cd, i);
    }
  }

  lemma WeekDateWeekday(cd: Date, i: int)
    requires Valid(cd) && 0 <= i < 7
    ensures Weekday(WeekDates(cd)[i]) == i
  {
    WeekDatesColumn(cd, i);
    WeekStartPlus(cd, i);
  }

  /**
   * An event with a real date shows in the week view exactly in the column whose offset from
   * the week's Sunday is the event's offset, and so in no column when it is outside the week.
   */
  lemma WeekColumnOfEvent(cd: Date, events: seq<ClientEvent>, e: ClientEvent, i: int)
    requires Valid(cd) && Valid(e.fullDate) && e in events && 0 <= i < 7
    ensures e in EventsForDate(events, WeekDates(cd)[i])
        <==> DayNumber(e.fullDate) == DayNumber(WeekStart(cd)) + i
  {
    WeekDatesAreTheWeek(cd);
    var d := WeekDates(cd)[i];
    if DayNumber(e.fullDate) == DayNumber(WeekStart(cd)) + i {
      DayNumberInjective(e.fullDate, d);
    }
  }

  // ---------------------------------------------------------------------------
  // The day view's hour rows
  // ---------------------------------------------------------------------------

  /**
   * The day view's hour filter: the event has a start time, and the integer before its first
   * `:` is `hour` (a start time that does not parse matches no hour).
   */
  predicate StartsAt(e: ClientEvent, hour: int) {
    Truthy(e.startTime) && ParseInt(Split(e.startTime.value, ':')[0]) == Some(hour)
  }

  datatype HourRow = HourRow(hour: int, caption: string, events: seq<ClientEvent>)

  /** The events of one hour row, in list order. */
  function HourEvents(dayEvents: seq<ClientEvent>, hour: int): (r: seq<ClientEvent>)
    ensures forall e :: e in r <==> e in dayEvents && StartsAt(e, hour)
  {
    Seqs.Filter(dayEvents, (e: ClientEvent) => StartsAt(e, hour))
  }

  /** `renderDayView()`: the rows for hours 0..23 of the current date's events. */
  function DayRows(events: seq<ClientEvent>, cd: Date): (rows: seq<HourRow>)
    ensures |rows| == 24
    ensures forall h :: 0 <= h < 24 ==> rows[h].hour == h && rows[h].caption == HourLabel(h)
    ensures forall h :: 0 <= h < 24 ==> rows[h].events == HourEvents(EventsForDate(events, cd), h)
  {
    var dayEvents := EventsForDate(events, cd);
    seq(24, h => HourRow(h, HourLabel(h), HourEvents(dayEvents, h)))
  }

  /**
   * Each event of the current date whose start hour is an hour of the day is shown in that
   * hour's row and in no other; an event of another date, or one without a start hour in
   * 0..23, is shown in no row.
   */
  lemma EventInItsHourRow(events: seq<ClientEvent>, cd: Date, e: ClientEvent)
    requires e in events
    ensures var rows := DayRows(events, cd);
      forall h :: 0 <= h < 24 ==> (e in rows[h].events <==> e.fullDate == cd && StartsAt(e, h))
  {
  }

  /** At most one row shows a given event, since a start time has a single hour. */
  lemma EventInAtMostOneRow(events: seq<ClientEvent>, cd: Date, e: ClientEvent, h1: int, h2: int)
    requires 0 <= h1 < 24 && 0 <= h2 < 24
    requires e in DayRows(events, cd)[h1].events && e in DayRows(events, cd)[h2].events
    ensures h1 == h2
  {
  }

  /**
   * The placeholder an empty hour slot opens the modal with: the hour and the next hour, each
   * zero-padded to two digits, at minute 00.
   */
  function SlotTarget(hour: nat): EditTarget {
    Slot(ClockTime(hour, "00"), ClockTime(hour + 1, "00"))
  }

  /**
   * The slot's start time reads back as the slot's hour, so an event saved from the slot of
   * row `h` with the start time unchanged is shown in row `h`, and both times format on the
   * 12-hour clock at minute 00.
   */
  lemma SlotTimesReadBack(h: nat, e: ClientEvent)
    requires h < 24
    requires e.startTime == Some(SlotTarget(h).startTime)
    ensures StartsAt(e, h)
    ensures FormatTime(e.startTime) == NatToString(Clock12(h)) + ":" + "00" + " " + (if h < 12 then "AM" else "PM")
  {
    ClockTimeFields(h, "00", e.startTime.value);
    FormatTimeOfClock(h, "00");
  }

  // ---------------------------------------------------------------------------
  // Clicks
  // ---------------------------------------------------------------------------

  /**
   * Clicking an event shown on `shown`: the modal opens on it, with the day of the month of the
   * shown date selected. The week view passes the column's date, the day view the current date.
   */
  function EventClick(e: ClientEvent, shown: Date): (ui: UiState)
    ensures ui.showModal && ui.selectedDay == Some(shown.day) && ui.eventToEdit == Some(Existing(e))
  {
    UiState(true, Some(shown.day), Some(Existing(e)))
  }

  /** Clicking an empty hour slot: the current day is selected and the modal opens on the slot placeholder. */
  function SlotClick(cd: Date, hour: nat): (ui: UiState)
    ensures ui.showModal && ui.selectedDay == Some(cd.day) && ui.eventToEdit == Some(SlotTarget(hour))
  {
    UiState(true, Some(cd.day), Some(SlotTarget(hour)))
  }
}
