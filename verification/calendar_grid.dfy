/**
 * The month view (CalendarGrid.jsx): a seven-column grid with one blank cell per weekday
 * before the 1st, then one cell per day of the month, each listing the events of that day
 * with a count badge, the current day highlighted.
 */
module CalendarGrid {
  import opened Wrappers
  import opened CivilDate
  import opened ClientModel
  import Seqs

  /**
   * `new Date(year, month + 1, 0).getDate()`: the number of day cells, the length of the
   * displayed month in the year the constructor reads (a year 0..99 is taken as 1900..1999).
   */
  ghost function DaysShown(cd: Date): (n: int)
    requires Valid(cd)
    ensures n == DaysInMonth(ConstructorYear(cd.year), cd.month0)
    ensures (cd.year < 0 || 100 <= cd.year) ==> n == DaysInMonth(cd.year, cd.month0)
  {
    MakeDateDayZero(ConstructorYear(cd.year), cd.month0);
    NewDate(cd.year, cd.month0 + 1, 0).day
  }

  /** `new Date(year, month, 1).getDay()`: the number of blank cells before the 1st. */
  ghost function LeadingBlanks(cd: Date): (n: int)
    requires Valid(cd)
    ensures 0 <= n <= 6
  {
    Weekday(NewDate(cd.year, cd.month0, 1))
  }

  /**
   * The blanks before the 1st are as many as the weekday number (Sunday = 0) of the 1st of the
   * displayed month, in the year the constructor reads.
   */
  lemma LeadingBlanksIsWeekdayOfFirst(cd: Date)
    requires Valid(cd)
    ensures LeadingBlanks(cd) == Weekday(Date(ConstructorYear(cd.year), cd.month0, 1))
    ensures (cd.year < 0 || 100 <= cd.year) ==> LeadingBlanks(cd) == Weekday(Date(cd.year, cd.month0, 1))
  {
    MakeDateOfValid(Date(ConstructorYear(cd.year), cd.month0, 1));
  }

  /** `getEventsForDay(day)`: the events whose day of the month is `day`, in list order. */
  function EventsForDay(events: seq<ClientEvent>, day: int): (r: seq<ClientEvent>)
    ensures forall e :: e in r <==> e in events && e.day == day
    ensures |r| <= |events|
  {
    Seqs.Filter(events, OnDay(day))
  }

  function OnDay(day: int): ClientEvent -> bool {
    (e: ClientEvent) => e.day == day
  }

  datatype Cell =
    | Blank
    | DayCell(day: int, isToday: bool, events: seq<ClientEvent>, badge: Option<int>)

  /** The cell of `day`: highlighted when it is today, with its events and a badge when it has any. */
  function DayCellFor(day: int, isCurrentMonth: bool, today: int, events: seq<ClientEvent>): Cell {
    var dayEvents := EventsForDay(events, day);
    DayCell(day, isCurrentMonth && day == today, dayEvents,
            if |dayEvents| > 0 then Some(|dayEvents|) else None)
  }

  /** A day cell's badge is shown exactly when it lists events, and shows their number. */
  predicate BadgeShowsCount(c: Cell)
    requires c.DayCell?
  {
    (c.badge.Some? <==> |c.events| > 0) && (c.badge.Some? ==> c.badge.value == |c.events|)
  }

  /** Today's day of the month when `now` falls in the displayed month. */
  predicate IsToday(cd: Date, now: Date, day: int) {
    now.month0 == cd.month0 && now.year == cd.year && day == now.day
  }

  /**
   * `c` is the cell of `day`: it lists exactly that day's events in list order, is highlighted
   * exactly when it is today, and its badge counts its events.
   */
  predicate ShowsDay(c: Cell, day: int, cd: Date, now: Date, events: seq<ClientEvent>) {
    && c.DayCell? && c.day == day
    && c.events == EventsForDay(events, day)
    && c.isToday == IsToday(cd, now, day)
    && BadgeShowsCount(c)
  }

  /** The day cells 1..n in order. */
  function DayCells(cd: Date, now: Date, events: seq<ClientEvent>, n: nat): (cells: seq<Cell>)
    ensures |cells| == n
    ensures forall i :: 0 <= i < n ==> ShowsDay(cells[i], i + 1, cd, now, events)
  {
    var isCurrentMonth := now.month0 == cd.month0 && now.year == cd.year;
    seq(n, i => DayCellFor(i + 1, isCurrentMonth, now.day, events))
  }

  /** The `emptyDays` placeholders. */
  function Blanks(n: nat): (r: seq<Cell>)
    ensures |r| == n && forall i :: 0 <= i < n ==> r[i] == Blank
  {
    seq(n, _ => Blank)
  }

  /**
   * The rendered month: blank cells for the weekdays before the 1st, then the days of the
   * month in order, and nothing after the last day. `now` is the clock's current date.
   */
  ghost function MonthGrid(cd: Date, now: Date, events: seq<ClientEvent>): (g: seq<Cell>)
    requires Valid(cd)
    ensures |g| == LeadingBlanks(cd) + DaysInMonth(ConstructorYear(cd.year), cd.month0)
    ensures forall i :: 0 <= i < |g| ==> (g[i].Blank? <==> i < LeadingBlanks(cd))
    ensures forall i :: LeadingBlanks(cd) <= i < |g| ==> ShowsDay(g[i], i - LeadingBlanks(cd) + 1, cd, now, events)
  {
    Layout(LeadingBlanks(cd), DaysShown(cd), cd, now, events)
  }

  /** `lead` blank cells followed by the cells of days 1..n. */
  function Layout(lead: nat, n: nat, cd: Date, now: Date, events: seq<ClientEvent>): (g: seq<Cell>)
    ensures |g| == lead + n
    ensures forall i :: 0 <= i < |g| ==> (g[i].Blank? <==> i < lead)
    ensures forall i :: lead <= i < |g| ==> ShowsDay(g[i], i - lead + 1, cd, now, events)
  {
    var days := DayCells(cd, now, events, n);
    var g := Blanks(lead) + days;
    assert forall i :: lead <= i < |g| ==> g[i] == days[i - lead];
    g
  }

  /**
   * Every event lands in the cell of its day and in no other; an event whose day is not a day
   * of the displayed month lands nowhere.
   */
  lemma EventInExactlyOneCell(cd: Date, now: Date, events: seq<ClientEvent>, e: ClientEvent)
    requires Valid(cd) && e in events
    ensures var g := MonthGrid(cd, now, events);
      forall i :: 0 <= i < |g| && g[i].DayCell? ==>
        (e in g[i].events <==>
          1 <= e.day <= DaysInMonth(ConstructorYear(cd.year), cd.month0) && i == LeadingBlanks(cd) + e.day - 1)
  {
  }

  /** A cell shows a badge exactly when it has events, and the badge is their number. */
  lemma BadgeIsCellCount(cd: Date, now: Date, events: seq<ClientEvent>, i: int)
    requires Valid(cd)
    requires LeadingBlanks(cd) <= i < |MonthGrid(cd, now, events)|
    ensures var c := MonthGrid(cd, now, events)[i];
      && (c.badge.Some? <==> exists e :: e in events && e.day == c.day)
      && (c.badge.Some? ==> c.badge.value == |EventsForDay(events, c.day)|)
  {
    var c := MonthGrid(cd, now, events)[i];
    if exists e :: e in events && e.day == c.day {
      var e :| e in events && e.day == c.day;
      assert e in c.events;
    }
    if c.badge.Some? {
      assert c.events[0] in c.events;
    }
  }

  /**
   * The highlight: a cell is marked today exactly when the displayed month is the current
   * month and the cell is the current day, so at most one cell is marked.
   */
  lemma TodayMarking(cd: Date, now: Date, events: seq<ClientEvent>)
    requires Valid(cd) && Valid(now)
    ensures var g := MonthGrid(cd, now, events);
      && (forall i :: 0 <= i < |g| ==>
           (g[i].DayCell? && g[i].isToday <==>
             now.year == cd.year && now.month0 == cd.month0 && i == LeadingBlanks(cd) + now.day - 1))
      && (forall i, j ::
            0 <= i < |g| && 0 <= j < |g| && g[i].DayCell? && g[i].isToday && g[j].DayCell? && g[j].isToday
            ==> i == j)
  {
  }

  // ---------------------------------------------------------------------------
  // The badges count every event of the month exactly once
  // ---------------------------------------------------------------------------

  function BadgeValue(c: Cell): int {
    if c.DayCell? && c.badge.Some? then c.badge.value else 0
  }

  /** The sum of the badges of `cells`. */
  function BadgeTotal(cells: seq<Cell>): int {
    if |cells| == 0 then 0 else BadgeTotal(cells[..|cells| - 1]) + BadgeValue(cells[|cells| - 1])
  }

  function InMonth(n: int): ClientEvent -> bool {
    (e: ClientEvent) => 1 <= e.day <= n
  }

  lemma {:induction false} BadgeTotalOfDayCells(cd: Date, now: Date, events: seq<ClientEvent>, n: nat)
    ensures BadgeTotal(DayCells(cd, now, events, n)) == |Seqs.Filter(events, InMonth(n))|
  {
    if n == 0 {
      Seqs.FilterNone(events, InMonth(0));
    } else {
      var cells := DayCells(cd, now, events, n);
      assert cells[..n - 1] == DayCells(cd, now, events, n - 1);
      BadgeTotalOfDayCells(cd, now, events, n - 1);
      assert BadgeTotal(cells) == BadgeTotal(cells[..n - 1]) + BadgeValue(cells[n - 1]);
      assert cells[n - 1].events == EventsForDay(events, n);
      assert BadgeValue(cells[n - 1]) == |EventsForDay(events, n)|;
      assert EventsForDay(events, n) == Seqs.Filter(events, OnDay(n));
      assert forall x :: InMonth(n)(x) == (InMonth(n - 1)(x) || OnDay(n)(x));
      assert forall x :: !(InMonth(n - 1)(x) && OnDay(n)(x));
      Seqs.FilterDisjointCount(events, InMonth(n - 1), OnDay(n), InMonth(n));
    }
  }

  lemma {:induction false} BadgeTotalSkipsBlanks(blanks: nat, cells: seq<Cell>)
    ensures BadgeTotal(Blanks(blanks) + cells) == BadgeTotal(cells)
  {
    if |cells| == 0 {
      if blanks > 0 {
        var g := Blanks(blanks);
        assert g + cells == g;
        assert g[..blanks - 1] == Blanks(blanks - 1);
        BadgeTotalSkipsBlanks(blanks - 1, []);
        assert Blanks(blanks - 1) + [] == Blanks(blanks - 1);
      }
    } else {
      var g := Blanks(blanks) + cells;
      assert g[..|g| - 1] == Blanks(blanks) + cells[..|cells| - 1];
      BadgeTotalSkipsBlanks(blanks, cells[..|cells| - 1]);
    }
  }

  /**
   * Summed over the grid, the badges count each event whose day is a day of the displayed
   * month exactly once.
   */
  lemma BadgesCountMonthEvents(cd: Date, now: Date, events: seq<ClientEvent>)
    requires Valid(cd)
    ensures BadgeTotal(MonthGrid(cd, now, events))
         == |Seqs.Filter(events, InMonth(DaysInMonth(ConstructorYear(cd.year), cd.month0)))|
  {
    BadgeTotalSkipsBlanks(LeadingBlanks(cd), DayCells(cd, now, events, DaysShown(cd)));
    BadgeTotalOfDayCells(cd, now, events, DaysShown(cd));
  }

  // ---------------------------------------------------------------------------
  // Clicks
  // ---------------------------------------------------------------------------

  /** `handleDayClick(day)`: the modal opens in create mode for that day. */
  function DayClick(day: int): (ui: UiState)
    ensures ui.showModal && ui.selectedDay == Some(day) && ui.eventToEdit.None?
  {
    UiState(true, Some(day), None)
  }

  /** `handleEditClick(event)`: the modal opens on the event, with its day selected. */
  function EditClick(e: ClientEvent): (ui: UiState)
    ensures ui.showModal && ui.selectedDay == Some(e.day) && ui.eventToEdit == Some(Existing(e))
  {
    UiState(true, Some(e.day), Some(Existing(e)))
  }
}
