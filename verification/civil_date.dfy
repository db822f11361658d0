/**
 * Proleptic-Gregorian civil dates as the calendar's JavaScript `Date` objects see them:
 * a year, a 0-based month (January = 0, as `getMonth()` returns it) and a day of the month.
 * Time of day, time zones and daylight saving are not part of the model.
 *
 * A date is converted to a day number (days since 0001-01-01), which makes the weekday,
 * "add n days" and the month/year rollover of `new Date(y, m, d)` provable functions.
 */
module CivilDate {

  datatype Date = Date(year: int, month0: int, day: int)

  /** The Gregorian leap-year rule. */
  predicate IsLeapYear(y: int) {
    (y % 4 == 0 && y % 100 != 0) || y % 400 == 0
  }

  /** Number of days of month `m0` (0-based) of year `y`: the reference definition. */
  function DaysInMonth(y: int, m0: int): int
    requires 0 <= m0 < 12
  {
    if m0 == 1 then (if IsLeapYear(y) then 29 else 28)
    else if m0 == 3 || m0 == 5 || m0 == 8 || m0 == 10 then 30
    else 31
  }

  function YearLength(y: int): int {
    if IsLeapYear(y) then 366 else 365
  }

  /** A date that names an existing calendar day. */
  predicate Valid(d: Date) {
    0 <= d.month0 < 12 && 1 <= d.day <= DaysInMonth(d.year, d.month0)
  }

  /** Days of year `y` that precede month `m0` (so `m0 == 12` gives the whole year). */
  function DaysBeforeMonth(y: int, m0: int): int
    requires 0 <= m0 <= 12
  {
    [0, 31, 59, 90, 120, 151, 181, 212, 243, 273, 304, 334, 365][m0]
    + (if IsLeapYear(y) && m0 >= 2 then 1 else 0)
  }

  /**
   * Days from 0001-01-01 to January 1st of year `y` (negative before year 1): the lengths of
   * the years in between, added up year by year (DaysBeforeYearClosed gives the closed form).
   */
  function DaysBeforeYear(y: int): int
    decreases if y < 1 then 1 - y else y - 1
  {
    if y == 1 then 0
    else if y > 1 then DaysBeforeYear(y - 1) + YearLength(y - 1)
    else DaysBeforeYear(y + 1) - YearLength(y)
  }

  /** Days elapsed since 0001-01-01, which is day 0. */
  function DayNumber(d: Date): int
    requires Valid(d)
  {
    DaysBeforeYear(d.year) + DaysBeforeMonth(d.year, d.month0) + d.day - 1
  }

  /** Day of the week as `getDay()` returns it: 0 = Sunday .. 6 = Saturday (0001-01-01 was a Monday). */
  function Weekday(d: Date): int
    requires Valid(d)
  {
    (DayNumber(d) + 1) % 7
  }

  /** The calendar day after `d`. */
  function NextDay(d: Date): (r: Date)
    requires Valid(d)
    ensures Valid(r)
  {
    if d.day < DaysInMonth(d.year, d.month0) then Date(d.year, d.month0, d.day + 1)
    else if d.month0 < 11 then Date(d.year, d.month0 + 1, 1)
    else Date(d.year + 1, 0, 1)
  }

  /** The calendar day before `d`. */
  function PrevDay(d: Date): (r: Date)
    requires Valid(d)
    ensures Valid(r)
  {
    if d.day > 1 then Date(d.year, d.month0, d.day - 1)
    else if d.month0 > 0 then Date(d.year, d.month0 - 1, DaysInMonth(d.year, d.month0 - 1))
    else Date(d.year - 1, 11, 31)
  }

  /** `d` moved by `n` days (backwards when `n` is negative): the date whose day number is `n` more. */
  ghost function AddDays(d: Date, n: int): (r: Date)
    requires Valid(d)
    ensures Valid(r)
    ensures DayNumber(r) == DayNumber(d) + n
  {
    DayNumberReached(d, n);
    var r :| Valid(r) && DayNumber(r) == DayNumber(d) + n;
    r
  }

  /**
   * `new Date(y, m, dd)` in JavaScript: the month index may lie outside 0..11 and the day
   * outside the month; both overflow into the neighbouring months and years (ECMAScript
   * MakeDay: year + floor(m / 12), month m modulo 12, then dd - 1 days after the 1st).
   */
  ghost function MakeDate(y: int, m: int, dd: int): (r: Date)
    ensures Valid(r)
  {
    AddDays(FirstOfMonth(y, m), dd - 1)
  }

  /**
   * The year the multi-argument constructor `new Date(y, m, dd)` actually uses: a year 0..99
   * is read as 1900..1999 (ECMAScript's Date constructor, before MakeDay). `setDate` has no such
   * rule. The result is never a two-digit year, so reading it again changes nothing.
   */
  function ConstructorYear(y: int): (r: int)
    ensures r < 0 || 100 <= r
    ensures 0 <= y <= 99 ==> r - y == 1900
    ensures (r == y) <==> (y < 0 || 100 <= y)
  {
    if 0 <= y <= 99 then 1900 + y else y
  }

  /** `new Date(y, m, dd)`: the two-digit-year rule, then the rollover of `MakeDate`. */
  ghost function NewDate(y: int, m: int, dd: int): (r: Date)
    ensures Valid(r)
  {
    MakeDate(ConstructorYear(y), m, dd)
  }

  /** Outside the years 0..99 the constructor is plain rollover. */
  lemma NewDateOfFourDigitYear(y: int, m: int, dd: int)
    requires y < 0 || 100 <= y
    ensures NewDate(y, m, dd) == MakeDate(y, m, dd)
  {
  }

  /**
   * Two dates the two-digit-year rule moves: the month after December of year 99 is January
   * 2000, and day 0 of March of year 0 is February 28 of 1900 (not a leap year), not the 29th.
   */
  lemma NewDateTwoDigitYears()
    ensures NewDate(99, 12, 1) == Date(2000, 0, 1)
    ensures NewDate(0, 2, 0) == Date(1900, 1, 28)
  {
    MakeDateNextMonth(1999, 11);
    MakeDateDayZero(1900, 1);
  }

  /**
   * The 1st of month `m` of year `y`, a month index outside 0..11 rolling over into the
   * neighbouring years twelve months at a time (the year grows by `floor(m / 12)` and the
   * month becomes `m` modulo 12).
   */
  function FirstOfMonth(y: int, m: int): (r: Date)
    ensures Valid(r) && r.day == 1
    ensures r.year * 12 + r.month0 == y * 12 + m
    decreases if m < 0 then 12 - m else m
  {
    if m < 0 then FirstOfMonth(y - 1, m + 12)
    else if m >= 12 then FirstOfMonth(y + 1, m - 12)
    else Date(y, m, 1)
  }

  /** The Sunday on or before `d`. */
  ghost function WeekStart(d: Date): (r: Date)
    requires Valid(d)
    ensures Valid(r)
  {
    AddDays(d, -Weekday(d))
  }

  // ---------------------------------------------------------------------------
  // Arithmetic facts about the day number
  // ---------------------------------------------------------------------------

  lemma DivStep4(y: int)
    ensures y / 4 - (y - 1) / 4 == if y % 4 == 0 then 1 else 0
  {
  }

  lemma DivStep100(y: int)
    ensures y / 100 - (y - 1) / 100 == if y % 100 == 0 then 1 else 0
  {
  }

  lemma DivStep400(y: int)
    ensures y / 400 - (y - 1) / 400 == if y % 400 == 0 then 1 else 0
  {
  }

  /** The year length counted by the quotients the closed form uses. */
  lemma YearLengthByQuotients(y: int)
    ensures YearLength(y) == 365 + (y / 4 - (y - 1) / 4) - (y / 100 - (y - 1) / 100) + (y / 400 - (y - 1) / 400)
  {
    DivStep4(y);
    DivStep100(y);
    DivStep400(y);
  }

  /** Consecutive New Year's days are one year length apart. */
  lemma DaysBeforeYearStep(y: int)
    ensures DaysBeforeYear(y + 1) == DaysBeforeYear(y) + YearLength(y)
  {
  }

  /** The closed form: 365 days a year plus one per leap year, counted by the Gregorian rule. */
  lemma DaysBeforeYearClosed(y: int)
    ensures DaysBeforeYear(y) == 365 * (y - 1) + (y - 1) / 4 - (y - 1) / 100 + (y - 1) / 400
  {
    if y >= 1 {
      DaysBeforeYearClosedUp(y);
    } else {
      DaysBeforeYearClosedDown(y);
    }
  }

  lemma {:induction false} DaysBeforeYearClosedUp(y: int)
    requires y >= 1
    ensures DaysBeforeYear(y) == 365 * (y - 1) + (y - 1) / 4 - (y - 1) / 100 + (y - 1) / 400
    decreases y
  {
    if y > 1 {
      DaysBeforeYearClosedUp(y - 1);
      YearLengthByQuotients(y - 1);
    }
  }

  lemma {:induction false} DaysBeforeYearClosedDown(y: int)
    requires y <= 1
    ensures DaysBeforeYear(y) == 365 * (y - 1) + (y - 1) / 4 - (y - 1) / 100 + (y - 1) / 400
    decreases 1 - y
  {
    if y < 1 {
      DaysBeforeYearClosedDown(y + 1);
      YearLengthByQuotients(y);
    }
  }

  lemma {:induction false} DaysBeforeYearMonotone(y1: int, y2: int)
    requires y1 <= y2
    ensures DaysBeforeYear(y1) <= DaysBeforeYear(y2)
    decreases y2 - y1
  {
    if y1 < y2 {
      DaysBeforeYearStep(y1);
      DaysBeforeYearMonotone(y1 + 1, y2);
    }
  }

  lemma DaysBeforeMonthStep(y: int, m0: int)
    requires 0 <= m0 < 12
    ensures DaysBeforeMonth(y, m0 + 1) == DaysBeforeMonth(y, m0) + DaysInMonth(y, m0)
  {
  }

  lemma DaysBeforeMonthMonotone(y: int, m1: int, m2: int)
    requires 0 <= m1 <= m2 <= 12
    ensures DaysBeforeMonth(y, m1) <= DaysBeforeMonth(y, m2)
  {
  }

  /** The day after has the next day number. */
  lemma NextDayNumber(d: Date)
    requires Valid(d)
    ensures DayNumber(NextDay(d)) == DayNumber(d) + 1
  {
    DaysBeforeMonthStep(d.year, d.month0);
    if d.day == DaysInMonth(d.year, d.month0) && d.month0 == 11 {
      DaysBeforeYearStep(d.year);
    }
  }

  lemma PrevNextInverse(d: Date)
    requires Valid(d)
    ensures NextDay(PrevDay(d)) == d
  {
  }

  /** Lexicographic order of (year, month, day). */
  predicate Before(a: Date, b: Date) {
    a.year < b.year
    || (a.year == b.year && a.month0 < b.month0)
    || (a.year == b.year && a.month0 == b.month0 && a.day < b.day)
  }

  lemma DayNumberWithinYear(d: Date)
    requires Valid(d)
    ensures DaysBeforeYear(d.year) <= DayNumber(d) < DaysBeforeYear(d.year + 1)
  {
    DaysBeforeMonthStep(d.year, d.month0);
    DaysBeforeMonthMonotone(d.year, d.month0 + 1, 12);
    DaysBeforeYearStep(d.year);
  }

  /** The day number is strictly increasing in calendar order. */
  lemma DayNumberMonotone(a: Date, b: Date)
    requires Valid(a) && Valid(b) && Before(a, b)
    ensures DayNumber(a) < DayNumber(b)
  {
    if a.year < b.year {
      DayNumberWithinYear(a);
      DayNumberWithinYear(b);
      DaysBeforeYearMonotone(a.year + 1, b.year);
    } else if a.month0 < b.month0 {
      DaysBeforeMonthStep(a.year, a.month0);
      DaysBeforeMonthMonotone(a.year, a.month0 + 1, b.month0);
    }
  }

  /** Distinct valid dates have distinct day numbers. */
  lemma DayNumberInjective(a: Date, b: Date)
    requires Valid(a) && Valid(b)
    requires DayNumber(a) == DayNumber(b)
    ensures a == b
  {
    if a != b {
      if Before(a, b) {
        DayNumberMonotone(a, b);
      } else {
        DayNumberMonotone(b, a);
      }
    }
  }

  // ---------------------------------------------------------------------------
  // Properties of the date operations
  // ---------------------------------------------------------------------------

  /** Stepping day by day from a valid date reaches every day number, so each is some date's. */
  lemma {:induction false} DayNumberReached(d: Date, n: int)
    requires Valid(d)
    ensures exists r :: Valid(r) && DayNumber(r) == DayNumber(d) + n
    decreases if n < 0 then -n else n
  {
    if n > 0 {
      NextDayNumber(d);
      DayNumberReached(NextDay(d), n - 1);
    } else if n < 0 {
      NextDayNumber(PrevDay(d));
      PrevNextInverse(d);
      DayNumberReached(PrevDay(d), n + 1);
    } else {
      assert Valid(d) && DayNumber(d) == DayNumber(d) + n;
    }
  }

  /** Moving by zero days stays put. */
  lemma AddDaysZero(d: Date)
    requires Valid(d)
    ensures AddDays(d, 0) == d
  {
    DayNumberInjective(AddDays(d, 0), d);
  }

  /** Moving by one day is the next day. */
  lemma AddDaysOne(d: Date)
    requires Valid(d)
    ensures AddDays(d, 1) == NextDay(d)
  {
    NextDayNumber(d);
    DayNumberInjective(AddDays(d, 1), NextDay(d));
  }

  /** Moving by `a` and then by `b` days is moving by `a + b` days. */
  lemma AddDaysCompose(d: Date, a: int, b: int)
    requires Valid(d)
    ensures AddDays(AddDays(d, a), b) == AddDays(d, a + b)
  {
    DayNumberInjective(AddDays(AddDays(d, a), b), AddDays(d, a + b));
  }

  /** Moving forward and back by the same amount returns to the start. */
  lemma AddDaysInverse(d: Date, n: int)
    requires Valid(d)
    ensures AddDays(AddDays(d, n), -n) == d
  {
    DayNumberInjective(AddDays(AddDays(d, n), -n), d);
  }

  /** The weekday advances by `n` modulo 7 when the date advances by `n` days. */
  lemma ModSeven(x: int, n: int)
    ensures (x + n) % 7 == (x % 7 + n) % 7
  {
    var q := x / 7;
    assert x + n == 7 * q + (x % 7 + n);
    assert (7 * q + (x % 7 + n)) % 7 == (x % 7 + n) % 7;
  }

  lemma WeekdayAddDays(d: Date, n: int)
    requires Valid(d)
    ensures Weekday(AddDays(d, n)) == (Weekday(d) + n) % 7
  {
    var x := DayNumber(d) + 1;
    assert DayNumber(AddDays(d, n)) + 1 == x + n;
    ModSeven(x, n);
  }

  /** The week start is a Sunday, at most six days before `d`, and `d` is that Sunday plus its weekday. */
  lemma WeekStartIsSunday(d: Date)
    requires Valid(d)
    ensures Weekday(WeekStart(d)) == 0
    ensures DayNumber(d) - 6 <= DayNumber(WeekStart(d)) <= DayNumber(d)
    ensures AddDays(WeekStart(d), Weekday(d)) == d
  {
    WeekStartWeekday(d);
    WeekStartReturns(d);
  }

  lemma WeekStartWeekday(d: Date)
    requires Valid(d)
    ensures Weekday(WeekStart(d)) == 0
  {
    var x := DayNumber(d) + 1;
    var q := x / 7;
    assert DayNumber(WeekStart(d)) + 1 == 7 * q;
  }

  /** The day `i` days after the week start falls on weekday `i`. */
  lemma WeekStartPlus(d: Date, i: int)
    requires Valid(d) && 0 <= i < 7
    ensures Weekday(AddDays(WeekStart(d), i)) == i
  {
    var ws := WeekStart(d);
    WeekStartWeekday(d);
    WeekdayAddDays(ws, i);
    assert (Weekday(ws) + i) % 7 == i;
  }

  /** A week later or earlier falls on the same weekday. */
  lemma WeekdayWeekApart(d: Date)
    requires Valid(d)
    ensures Weekday(AddDays(d, 7)) == Weekday(d) && Weekday(AddDays(d, -7)) == Weekday(d)
  {
    var w := Weekday(d);
    WeekdayAddDays(d, 7);
    WeekdayAddDays(d, -7);
    assert (w + 7) % 7 == w && (w - 7) % 7 == w;
  }

  /** The week of the date a week later starts a week later. */
  lemma WeekStartWeekLater(d: Date)
    requires Valid(d)
    ensures WeekStart(AddDays(d, 7)) == AddDays(WeekStart(d), 7)
  {
    var n := AddDays(d, 7);
    WeekdayWeekApart(d);
    assert DayNumber(WeekStart(n)) == DayNumber(d) + 7 - Weekday(d);
    DayNumberInjective(WeekStart(n), AddDays(WeekStart(d), 7));
  }

  /** Day `i` of the week of `d` is `d` moved by `i` less its weekday. */
  lemma WeekStartPlusOffset(d: Date, i: int)
    requires Valid(d)
    ensures AddDays(WeekStart(d), i) == AddDays(d, i - Weekday(d))
  {
    AddDaysCompose(d, -Weekday(d), i);
  }

  lemma WeekStartReturns(d: Date)
    requires Valid(d)
    ensures AddDays(WeekStart(d), Weekday(d)) == d
  {
    DayNumberInjective(AddDays(WeekStart(d), Weekday(d)), d);
  }

  /** `new Date(y, m0, dd + n)` for a real day `dd` of month `m0` is that day moved by `n` days. */
  lemma MakeDateShift(y: int, m0: int, dd: int, n: int)
    requires Valid(Date(y, m0, dd))
    ensures MakeDate(y, m0, dd + n) == AddDays(Date(y, m0, dd), n)
  {
    var first := Date(y, m0, 1);
    assert FirstOfMonth(y, m0) == first;
    assert DayNumber(Date(y, m0, dd)) == DayNumber(first) + dd - 1;
    DayNumberInjective(MakeDate(y, m0, dd + n), AddDays(Date(y, m0, dd), n));
  }

  /** `d.setDate(d.getDate() + n)` is `d` moved by `n` days. */
  lemma SetDateForward(d: Date, n: int)
    requires Valid(d)
    ensures MakeDate(d.year, d.month0, d.day + n) == AddDays(d, n)
  {
    assert FirstOfMonth(d.year, d.month0) == Date(d.year, d.month0, 1);
    DayNumberInjective(MakeDate(d.year, d.month0, d.day + n), AddDays(d, n));
  }

  /** `d.setDate(d.getDate() - n)` is `d` moved back by `n` days. */
  lemma SetDateBack(d: Date, n: int)
    requires Valid(d)
    ensures MakeDate(d.year, d.month0, d.day - n) == AddDays(d, -n)
  {
    assert FirstOfMonth(d.year, d.month0) == Date(d.year, d.month0, 1);
    DayNumberInjective(MakeDate(d.year, d.month0, d.day - n), AddDays(d, -n));
  }

  /** A real date is rebuilt unchanged by `new Date(y, m0, dd)`. */
  lemma MakeDateOfValid(d: Date)
    requires Valid(d)
    ensures MakeDate(d.year, d.month0, d.day) == d
  {
    SetDateForward(d, 0);
    AddDaysZero(d);
  }

  /** `new Date(y, m0, dd)` names that very day whenever it exists. */
  lemma MakeDateOfDay(y: int, m0: int, dd: int)
    ensures Valid(Date(y, m0, dd)) ==> MakeDate(y, m0, dd) == Date(y, m0, dd)
  {
    if Valid(Date(y, m0, dd)) {
      MakeDateOfValid(Date(y, m0, dd));
    }
  }

  /**
   * Rebuilding a date from its day of the month inside month `m0` of year `y` gives the date
   * back exactly when the date lies in that month: the same day of another month is another date.
   */
  lemma MakeDateSameDayIffSameMonth(y: int, m0: int, f: Date)
    requires 0 <= m0 < 12 && Valid(f)
    ensures MakeDate(y, m0, f.day) == f <==> f.year == y && f.month0 == m0
  {
    var a := Date(y, m0, 1);
    var b := Date(f.year, f.month0, 1);
    assert FirstOfMonth(y, m0) == a;
    assert DayNumber(MakeDate(y, m0, f.day)) == DayNumber(a) + f.day - 1;
    assert DayNumber(f) == DayNumber(b) + f.day - 1;
    if DayNumber(a) == DayNumber(b) {
      DayNumberInjective(a, b);
      DayNumberInjective(MakeDate(y, m0, f.day), f);
    }
  }

  /** `new Date(y, m0 + 1, 1)` is the first of the following month, rolling the year after December. */
  lemma MakeDateNextMonth(y: int, m0: int)
    requires 0 <= m0 < 12
    ensures MakeDate(y, m0 + 1, 1) == if m0 == 11 then Date(y + 1, 0, 1) else Date(y, m0 + 1, 1)
  {
    var first := FirstOfMonth(y, m0 + 1);
    assert first == if m0 == 11 then Date(y + 1, 0, 1) else Date(y, m0 + 1, 1);
    AddDaysZero(first);
  }

  /** `new Date(y, m0 - 1, 1)` is the first of the preceding month, rolling the year before January. */
  lemma MakeDatePreviousMonth(y: int, m0: int)
    requires 0 <= m0 < 12
    ensures MakeDate(y, m0 - 1, 1) == if m0 == 0 then Date(y - 1, 11, 1) else Date(y, m0 - 1, 1)
  {
    var first := FirstOfMonth(y, m0 - 1);
    assert first == if m0 == 0 then Date(y - 1, 11, 1) else Date(y, m0 - 1, 1);
    AddDaysZero(first);
  }

  /** `new Date(y, m0 + 1, 0)` is the last day of month `m0`: day 0 of a month is the day before its 1st. */
  lemma MakeDateDayZero(y: int, m0: int)
    requires 0 <= m0 < 12
    ensures MakeDate(y, m0 + 1, 0) == Date(y, m0, DaysInMonth(y, m0))
  {
    var last := Date(y, m0, DaysInMonth(y, m0));
    MakeDateNextMonth(y, m0);
    NextDayNumber(last);
    DayNumberInjective(MakeDate(y, m0 + 1, 0), last);
  }

  /** Two known weekdays anchor the day count: 1970-01-01 was a Thursday, 2024-03-05 a Tuesday. */
  lemma WeekdayAnchors()
    ensures Weekday(Date(1970, 0, 1)) == 4
    ensures Weekday(Date(2024, 2, 5)) == 2
    ensures Weekday(Date(2000, 1, 29)) == 2
  {
    WeekdayAnchor(1970, 0, 1, 719162, 4);
    WeekdayAnchor(2024, 2, 5, 738885, 2);
    WeekdayAnchor(2000, 1, 29, 730119, 2);
  }

  /** One anchor, stated on variables so that the year count goes through its closed form. */
  lemma WeekdayAnchor(y: int, m0: int, dd: int, n: int, w: int)
    requires y >= 1 && 0 <= m0 < 12 && 1 <= dd <= DaysInMonth(y, m0)
    requires n == 365 * (y - 1) + (y - 1) / 4 - (y - 1) / 100 + (y - 1) / 400
    requires w == (n + DaysBeforeMonth(y, m0) + dd) % 7
    ensures Weekday(Date(y, m0, dd)) == w
  {
    DaysBeforeYearClosed(y);
  }
}
