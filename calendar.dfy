/** The agenda's calendar helpers: month lengths, URL date validity relative to the current year,
    previous/next month and day navigation, and the 15-minute daily slot grid.

    `Date` and `DateTime` stand for Python's `date` and `datetime`; seconds and microseconds are always
    zero in this application (its date inputs are minute-precise), so they are not represented.
    The current moment is passed in as a parameter wherever the source reads the clock. */
module AgendaUtils {
  import opened Ranges
  import opened Text

  datatype Date = Date(year: int, month: int, day: int)

  datatype DateTime = DateTime(year: int, month: int, day: int, hour: int, minute: int)

  // ---------------------------------------------------------------------------------------------
  // Month lengths

  /** `calendar.isleap`: the Gregorian leap-year rule. */
  predicate IsLeapYear(year: int)
  {
    year % 4 == 0 && (year % 100 != 0 || year % 400 == 0)
  }

  /** Days per month in a common year, January first (the table behind `calendar.monthrange`). */
  const MonthLengths: seq<int> := [31, 28, 31, 30, 31, 30, 31, 31, 30, 31, 30, 31]

  /** `last_day(year, month)`: the number of the month's last day. */
  function LastDay(year: int, month: int): (r: int)
    requires 1 <= month <= 12
    ensures month in {1, 3, 5, 7, 8, 10, 12} ==> r == 31
    ensures month in {4, 6, 9, 11} ==> r == 30
    ensures month == 2 ==> (r == 29 <==> IsLeapYear(year)) && (r == 28 <==> !IsLeapYear(year))
  {
    if month == 2 && IsLeapYear(year) then 29 else MonthLengths[month - 1]
  }

  predicate ValidDate(d: Date)
  {
    1 <= d.month <= 12 && 1 <= d.day <= LastDay(d.year, d.month)
  }

  // ---------------------------------------------------------------------------------------------
  // URL validity

  /** `is_valid_year_month(year, month)` with the current year as a parameter: the year is within one
      of the current year and the month is one of `range(1, 13)`. */
  function IsValidYearMonth(year: int, month: int, nowYear: int): (r: bool)
    ensures r <==> nowYear - 1 <= year <= nowYear + 1 && 1 <= month <= 12
  {
    UnitRangeMembership(1, 13, month);
    (year == nowYear || year == nowYear + 1 || year == nowYear - 1) && month in Range(1, 13, 1)
  }

  /** `is_valid_year_month_day(year, month, day)`: the year/month test, and the day is one of
      `range(1, last_day + 1)` and positive. */
  function IsValidYearMonthDay(year: int, month: int, day: int, nowYear: int): (r: bool)
    ensures r <==> IsValidYearMonth(year, month, nowYear) && 1 <= day <= LastDay(year, month)
    ensures r ==> ValidDate(Date(year, month, day))
  {
    UnitRangeMembership(1, 13, month);
    (year == nowYear || year == nowYear + 1 || year == nowYear - 1)
    && month in Range(1, 13, 1)
    && (UnitRangeMembership(1, LastDay(year, month) + 1, day);
        day in Range(1, LastDay(year, month) + 1, 1) && day > 0)
  }

  // ---------------------------------------------------------------------------------------------
  // Day arithmetic (`date ± timedelta(days=...)`)

  /** Calendar order on dates. */
  predicate DateLess(a: Date, b: Date)
  {
    a.year < b.year
    || (a.year == b.year && a.month < b.month)
    || (a.year == b.year && a.month == b.month && a.day < b.day)
  }

  /** The day after d. */
  function NextDay(d: Date): (r: Date)
    requires ValidDate(d)
    ensures ValidDate(r) && DateLess(d, r)
  {
    if d.day < LastDay(d.year, d.month) then Date(d.year, d.month, d.day + 1)
    else if d.month < 12 then Date(d.year, d.month + 1, 1)
    else Date(d.year + 1, 1, 1)
  }

  /** The day before d. */
  function PrevDay(d: Date): (r: Date)
    requires ValidDate(d)
    ensures ValidDate(r) && DateLess(r, d)
  {
    if d.day > 1 then Date(d.year, d.month, d.day - 1)
    else if d.month > 1 then Date(d.year, d.month - 1, LastDay(d.year, d.month - 1))
    else Date(d.year - 1, 12, 31)
  }

  /** There is no valid date strictly between d and NextDay(d). */
  lemma NextDayIsSuccessor(d: Date, e: Date)
    requires ValidDate(d) && ValidDate(e) && DateLess(d, e)
    ensures NextDay(d) == e || DateLess(NextDay(d), e)
  {
  }

  /** There is no valid date strictly between PrevDay(d) and d. */
  lemma PrevDayIsPredecessor(d: Date, e: Date)
    requires ValidDate(d) && ValidDate(e) && DateLess(e, d)
    ensures PrevDay(d) == e || DateLess(e, PrevDay(d))
  {
  }

  /** `next_day` and `prev_day` undo each other, across month and year ends. */
  lemma NextPrevDay(d: Date)
    requires ValidDate(d)
    ensures NextDay(PrevDay(d)) == d && PrevDay(NextDay(d)) == d
  {
  }

  /** `date + timedelta(days=n)`. */
  function AddDays(d: Date, n: nat): (r: Date)
    requires ValidDate(d)
    ensures ValidDate(r)
    ensures n == 0 ==> r == d
    ensures n > 0 ==> DateLess(d, r)
    decreases n
  {
    if n == 0 then d else AddDays(NextDay(d), n - 1)
  }

  /** `date - timedelta(days=n)`. */
  function SubDays(d: Date, n: nat): (r: Date)
    requires ValidDate(d)
    ensures ValidDate(r)
    ensures n == 0 ==> r == d
    ensures n > 0 ==> DateLess(r, d)
    decreases n
  {
    if n == 0 then d else SubDays(PrevDay(d), n - 1)
  }

  lemma {:induction false} AddDaysAdditive(d: Date, a: nat, b: nat)
    requires ValidDate(d)
    ensures AddDays(AddDays(d, a), b) == AddDays(d, a + b)
    decreases a
  {
    if a > 0 {
      AddDaysAdditive(NextDay(d), a - 1, b);
    }
  }

  lemma AddDaysMonotone(d: Date, a: nat, b: nat)
    requires ValidDate(d) && a < b
    ensures DateLess(AddDays(d, a), AddDays(d, b))
  {
    AddDaysAdditive(d, a, b - a);
  }

  /** Adding and then subtracting the same number of days is the identity. */
  lemma {:induction false} SubAddDays(d: Date, n: nat)
    requires ValidDate(d)
    ensures SubDays(AddDays(d, n), n) == d
    decreases n
  {
    if n > 0 {
      AddDaysFirst(d, n - 1);
      NextPrevDay(AddDays(d, n - 1));
      SubAddDays(d, n - 1);
    }
  }

  lemma {:induction false} AddDaysFirst(d: Date, n: nat)
    requires ValidDate(d)
    ensures AddDays(d, n + 1) == NextDay(AddDays(d, n))
    decreases n
  {
    if n > 0 {
      AddDaysFirst(NextDay(d), n - 1);
    }
  }

  // ---------------------------------------------------------------------------------------------
  // Month navigation

  /** `prev_month_base(year, month, day)`: `day` days before the first of the month. */
  function PrevMonthBase(year: int, month: int, day: int): (r: Date)
    requires ValidDate(Date(year, month, day))
    ensures ValidDate(r) && DateLess(r, Date(year, month, 1))
  {
    SubDays(Date(year, month, 1), day)
  }

  /** `next_month_base(year, month, day)`: `day` days after the last day of the month. */
  function NextMonthBase(year: int, month: int, day: int): (r: Date)
    requires ValidDate(Date(year, month, day))
    ensures ValidDate(r) && DateLess(Date(year, month, LastDay(year, month)), r)
  {
    AddDays(Date(year, month, LastDay(year, month)), day)
  }

  /** `prev_year(year, month)`: the year of the month before, that is of the day before the first. */
  function PrevYear(year: int, month: int): (r: int)
    ensures 1 <= month <= 12 ==> PrevDay(Date(year, month, 1)).year == r
  {
    if month == 1 then year - 1 else year
  }

  /** `next_year(year, month)`: the year of the month after, that is of the day after the last. */
  function NextYear(year: int, month: int): (r: int)
    ensures 1 <= month <= 12 ==> NextDay(Date(year, month, LastDay(year, month))).year == r
  {
    if month == 12 then year + 1 else year
  }

  /** `prev_month_number` / `next_month_number`: the month of a base date as `strftime("%m")` prints it. */
  function MonthNumber(base: Date): (r: string)
    requires ValidDate(base)
    ensures |r| == 2 && ParseNat(r) == Some(base.month)
  {
    ParsePad2(base.month);
    Pad2(base.month)
  }

  /** The agenda's "previous month" link: from the first of a month, the base is the last day of the
      previous month, in the year `prev_year` names. */
  lemma PrevMonthBaseOfFirst(year: int, month: int)
    requires 1 <= month <= 12
    ensures var r := PrevMonthBase(year, month, 1);
      r.year == PrevYear(year, month)
      && r.month == (if month == 1 then 12 else month - 1)
      && r.day == LastDay(r.year, r.month)
  {
  }

  /** The agenda's "next month" link: from day 1, the base is the first of the next month, in the year
      `next_year` names. */
  lemma NextMonthBaseOfFirst(year: int, month: int)
    requires 1 <= month <= 12
    ensures NextMonthBase(year, month, 1)
      == Date(NextYear(year, month), if month == 12 then 1 else month + 1, 1)
  {
  }

  // ---------------------------------------------------------------------------------------------
  // Date-times

  function DateOf(t: DateTime): Date
  {
    Date(t.year, t.month, t.day)
  }

  function At(d: Date, hour: int, minute: int): DateTime
  {
    DateTime(d.year, d.month, d.day, hour, minute)
  }

  predicate ValidDateTime(t: DateTime)
  {
    ValidDate(DateOf(t)) && 0 <= t.hour < 24 && 0 <= t.minute < 60
  }

  /** Python's `datetime` order. */
  predicate Less(a: DateTime, b: DateTime)
  {
    DateLess(DateOf(a), DateOf(b))
    || (DateOf(a) == DateOf(b) && a.hour < b.hour)
    || (DateOf(a) == DateOf(b) && a.hour == b.hour && a.minute < b.minute)
  }

  predicate LessEq(a: DateTime, b: DateTime)
  {
    a == b || Less(a, b)
  }

  /** `datetime` order is transitive. */
  lemma LessTransitive(a: DateTime, b: DateTime, c: DateTime)
    requires Less(a, b) && Less(b, c)
    ensures Less(a, c)
  {
  }

  /** `datetime + timedelta(days=n)`: same time of day. */
  function AddDaysT(t: DateTime, n: nat): (r: DateTime)
    requires ValidDateTime(t)
    ensures ValidDateTime(r) && r.hour == t.hour && r.minute == t.minute
  {
    At(AddDays(DateOf(t), n), t.hour, t.minute)
  }

  /** Adding a days and then b days to a date-time is adding a + b days. */
  lemma AddDaysTAdditive(t: DateTime, a: nat, b: nat)
    requires ValidDateTime(t)
    ensures AddDaysT(AddDaysT(t, a), b) == AddDaysT(t, a + b)
  {
    AddDaysAdditive(DateOf(t), a, b);
    assert DateOf(AddDaysT(t, a)) == AddDays(DateOf(t), a);
  }

  /** `datetime + timedelta(hours=h)`: whole days carry into the date. */
  function AddHours(t: DateTime, h: nat): (r: DateTime)
    requires ValidDateTime(t)
    ensures ValidDateTime(r) && r.minute == t.minute
    ensures r.hour == (t.hour + h) % 24
  {
    var total := t.hour + h;
    At(AddDays(DateOf(t), total / 24), total % 24, t.minute)
  }

  /** Adding no hours changes nothing; adding days never moves a date-time backwards. */
  lemma AddNothing(t: DateTime, n: nat)
    requires ValidDateTime(t)
    ensures AddHours(t, 0) == t && AddDaysT(t, 0) == t
    ensures LessEq(t, AddDaysT(t, n))
  {
  }

  lemma AddHoursMonotone(t: DateTime, a: nat, b: nat)
    requires ValidDateTime(t) && a < b
    ensures Less(AddHours(t, a), AddHours(t, b))
  {
    var ca, cb := (t.hour + a) / 24, (t.hour + b) / 24;
    if ca < cb {
      AddDaysMonotone(DateOf(t), ca, cb);
    }
  }

  /** n days then h hours is 24 * n + h hours. */
  lemma AddHoursAfterDays(t: DateTime, n: nat, h: nat)
    requires ValidDateTime(t)
    ensures AddHours(AddDaysT(t, n), h) == AddHours(t, 24 * n + h)
  {
    var total := t.hour + h;
    assert (t.hour + 24 * n + h) / 24 == n + total / 24;
    assert (t.hour + 24 * n + h) % 24 == total % 24;
    AddDaysAdditive(DateOf(t), n, total / 24);
  }

  // ---------------------------------------------------------------------------------------------
  // The daily slot grid

  /** `"HH:MM"` with both fields zero-padded. */
  function ClockLabel(hour: nat, minute: nat): (r: string)
    requires hour < 100 && minute < 100
    ensures |r| == 5 && r[2] == ':'
  {
    Pad2(hour) + ":" + Pad2(minute)
  }

  lemma ClockLabelInjective(h1: nat, m1: nat, h2: nat, m2: nat)
    requires h1 < 100 && m1 < 100 && h2 < 100 && m2 < 100
    requires ClockLabel(h1, m1) == ClockLabel(h2, m2)
    ensures h1 == h2 && m1 == m2
  {
    assert ClockLabel(h1, m1)[..2] == Pad2(h1);
    assert ClockLabel(h2, m2)[..2] == Pad2(h2);
    assert ClockLabel(h1, m1)[3..] == Pad2(m1);
    assert ClockLabel(h2, m2)[3..] == Pad2(m2);
    Pad2Injective(h1, h2);
    Pad2Injective(m1, m2);
  }

  /** Labels of quarter-hours of the day (quarter q is q / 4 hours and (q % 4) * 15 minutes). */
  function QuarterLabels(quarters: seq<int>): (r: seq<string>)
    requires forall k :: 0 <= k < |quarters| ==> 0 <= quarters[k] < 96
    ensures |r| == |quarters|
    ensures forall k :: 0 <= k < |r| ==> r[k] == ClockLabel(quarters[k] / 4, (quarters[k] % 4) * 15)
  {
    seq(|quarters|, k requires 0 <= k < |quarters| => ClockLabel(quarters[k] / 4, (quarters[k] % 4) * 15))
  }

  /** `get_daily_agenda_hours()`: the labels of `numpy.arange(6, 23, 0.25)` hours, taken here as the
      quarter-hours 24 to 91 (the float steps are exact in binary). 68 labels from "06:00" to "22:45";
      the i-th is 6 + i / 4 hours and (i % 4) * 15 minutes, that is 06:00 plus 15 * i minutes. */
  function GetDailyAgendaHours(): (r: seq<string>)
    ensures |r| == 68
    ensures forall i :: 0 <= i < |r| ==> r[i] == ClockLabel(6 + i / 4, (i % 4) * 15)
  {
    var quarters := Range(24, 92, 1);
    RangeOfMultiple(24, 68, 1);
    var r := QuarterLabels(quarters);
    assert forall i :: 0 <= i < 68 ==> r[i] == ClockLabel(6 + i / 4, (i % 4) * 15) by {
      forall i | 0 <= i < 68 ensures r[i] == ClockLabel(6 + i / 4, (i % 4) * 15) {
        RangeAt(24, 92, 1, i);
        QuarterOfGrid(i, quarters[i]);
      }
    }
    r
  }

  lemma QuarterOfGrid(i: int, q: int)
    requires 0 <= i < 68 && q == 24 + i
    ensures q / 4 == 6 + i / 4 && q % 4 == i % 4
  {
  }

  /** The grid starts at "06:00" and ends at "22:45". */
  lemma DailyAgendaHoursEnds()
    ensures GetDailyAgendaHours()[0] == "06:00"
    ensures GetDailyAgendaHours()[67] == "22:45"
  {
    var r := GetDailyAgendaHours();
    assert r[0] == ClockLabel(6, 0);
    assert r[67] == ClockLabel(22, 45);
  }

  /** A grid index gives a quarter-hour between 06:00 and 22:45. */
  lemma GridIndexSlot(i: int)
    requires 0 <= i < 68
    ensures 6 <= 6 + i / 4 <= 22 && ((i % 4) * 15) % 15 == 0 && (i % 4) * 15 < 60
  {
  }

  /** A time of day is on the daily agenda exactly when it is a quarter-hour from 06:00 to 22:45. */
  lemma InDailyAgendaHours(hour: nat, minute: nat)
    requires hour < 24 && minute < 60
    ensures ClockLabel(hour, minute) in GetDailyAgendaHours() <==> 6 <= hour <= 22 && minute % 15 == 0
  {
    if 6 <= hour <= 22 && minute % 15 == 0 {
      GridSlotListed(hour, minute);
    }
    if ClockLabel(hour, minute) in GetDailyAgendaHours() {
      ListedSlotOnGrid(hour, minute);
    }
  }

  lemma GridSlotListed(hour: nat, minute: nat)
    requires 6 <= hour <= 22 && minute < 60 && minute % 15 == 0
    ensures ClockLabel(hour, minute) in GetDailyAgendaHours()
  {
    var r := GetDailyAgendaHours();
    var i := (hour - 6) * 4 + minute / 15;
    assert i / 4 == hour - 6 && i % 4 == minute / 15;
    assert (i % 4) * 15 == minute;
    assert r[i] == ClockLabel(hour, minute);
  }

  lemma ListedSlotOnGrid(hour: nat, minute: nat)
    requires hour < 24 && minute < 60
    requires ClockLabel(hour, minute) in GetDailyAgendaHours()
    ensures 6 <= hour <= 22 && minute % 15 == 0
  {
    var r := GetDailyAgendaHours();
    var i :| 0 <= i < |r| && r[i] == ClockLabel(hour, minute);
    GridIndexSlot(i);
    ClockLabelInjective(hour, minute, 6 + i / 4, (i % 4) * 15);
  }
}
