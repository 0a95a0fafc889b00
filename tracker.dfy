/** The per-activity calendar view: which days are marked, the header counts and label, the
    length of a month, and the grid of cells. The clock's year, zero-based month and day of month
    and the weekday of the first of the month are inputs. */
module Tracker {
  import opened Strings
  import opened Attendance

  /** What a tap on a day cell reports: `onToggleDay(activity.id, day)`. */
  datatype TapEvent = TapEvent(activityId: string, day: nat)

  /** One cell of the grid: a blank before the first of the month, or a day. */
  datatype Cell = Blank | DayCell(day: nat, attended: bool, sunday: bool, isToday: bool, onPress: TapEvent)

  /** The figures in the header: the lifetime count, the monthly count and its unit. */
  datatype Header = Header(totalCount: nat, monthCount: nat, unit: string)

  /** `isAttended(day)`: whether the activity's key for that day of the shown month is in the set.
      A marked day is always counted in both header figures. */
  function IsAttended(activityId: string, attendedDays: set<string>, year: nat, month: nat, day: nat): (r: bool)
    ensures r ==> MonthCount(attendedDays, activityId, year, month) > 0
    ensures r ==> ActivityCount(attendedDays, activityId) > 0
  {
    KeyString(DayKey(activityId, year, month, day)) in attendedDays
  }

  /** `monthAttendanceCount === 1 ? 'day' : 'days'` */
  function DayUnit(count: nat): (r: string)
    ensures r == "day" <==> count == 1
    ensures r == "day" || r == "days"
  {
    if count == 1 then "day" else "days"
  }

  /** The header: the lifetime count of the activity (the same count the session keeps), the
      monthly prefix count, never above it, and the unit that agrees with the monthly count. */
  function HeaderFor(activityId: string, attendedDays: set<string>, year: nat, month: nat): (h: Header)
    ensures h.totalCount == ActivityCount(attendedDays, activityId)
    ensures h.monthCount == MonthCount(attendedDays, activityId, year, month)
    ensures h.monthCount <= h.totalCount
    ensures h.unit == "day" <==> h.monthCount == 1
  {
    var monthAttendanceCount := MonthCount(attendedDays, activityId, year, month);
    var totalCount := ActivityCount(attendedDays, activityId);
    MonthCountAtMostActivityCount(attendedDays, activityId, year, month);
    Header(totalCount, monthAttendanceCount, DayUnit(monthAttendanceCount))
  }

  predicate IsLeapYear(year: int) {
    year % 4 == 0 && (year % 100 != 0 || year % 400 == 0)
  }

  /** `new Date(year, month + 1, 0).getDate()`: day 0 of the next month is the last day of this
      one, so this is the length of the zero-based month. */
  function DaysInMonth(year: int, month: nat): (n: nat)
    requires month < 12
    ensures 28 <= n <= 31
    ensures month == 1 ==> (n == 29 <==> IsLeapYear(year)) && (n == 28 <==> !IsLeapYear(year))
    ensures month != 1 ==> n == (if (month < 7) == (month % 2 == 0) then 31 else 30)
  {
    [31, if IsLeapYear(year) then 29 else 28, 31, 30, 31, 30, 31, 31, 30, 31, 30, 31][month]
  }

  function DaysBefore(year: int, months: nat): nat
    requires months <= 12
  {
    if months == 0 then 0 else DaysBefore(year, months - 1) + DaysInMonth(year, months - 1)
  }

  /** The twelve month lengths add up to the length of the year. */
  lemma YearLength(year: int)
    ensures DaysBefore(year, 12) == if IsLeapYear(year) then 366 else 365
  {
    var feb := DaysInMonth(year, 1);
    assert DaysBefore(year, 1) == 31;
    assert DaysBefore(year, 2) == 31 + feb;
    assert DaysBefore(year, 3) == 62 + feb;
    assert DaysBefore(year, 4) == 92 + feb;
    assert DaysBefore(year, 5) == 123 + feb;
    assert DaysBefore(year, 6) == 153 + feb;
    assert DaysBefore(year, 7) == 184 + feb;
    assert DaysBefore(year, 8) == 215 + feb;
    assert DaysBefore(year, 9) == 245 + feb;
    assert DaysBefore(year, 10) == 276 + feb;
    assert DaysBefore(year, 11) == 306 + feb;
    assert DaysBefore(year, 12) == 337 + feb;
  }

  /** `renderCalendar`: `firstDayOfMonth` blanks, then one cell per day of the month in order,
      each showing whether it is marked and reporting its own day when tapped. `isSunday` is derived
      from the weekday of the first of the month. */
  method RenderCalendar(activityId: string, attendedDays: set<string>, year: nat, month: nat,
                        today: nat, firstDayOfMonth: nat)
    returns (days: seq<Cell>)
    requires month < 12
    ensures |days| == firstDayOfMonth + DaysInMonth(year, month)
    ensures forall i :: 0 <= i < firstDayOfMonth ==> days[i] == Blank
    ensures forall i :: firstDayOfMonth <= i < |days| ==>
      var day := i - firstDayOfMonth + 1;
      days[i] == DayCell(day, IsAttended(activityId, attendedDays, year, month, day),
                         (firstDayOfMonth + day - 1) % 7 == 0, day == today,
                         TapEvent(activityId, day))
  {
    var daysInMonth := DaysInMonth(year, month);
    days := [];
    var i := 0;
    while i < firstDayOfMonth
      invariant 0 <= i <= firstDayOfMonth
      invariant |days| == i
      invariant forall j :: 0 <= j < i ==> days[j] == Blank
    {
      days := days + [Blank];
      i := i + 1;
    }
    var day := 1;
    while day <= daysInMonth
      invariant 1 <= day <= daysInMonth + 1
      invariant |days| == firstDayOfMonth + day - 1
      invariant forall j :: 0 <= j < firstDayOfMonth ==> days[j] == Blank
      invariant forall j :: firstDayOfMonth <= j < |days| ==>
        var d := j - firstDayOfMonth + 1;
        days[j] == DayCell(d, IsAttended(activityId, attendedDays, year, month, d),
                           (firstDayOfMonth + d - 1) % 7 == 0, d == today, TapEvent(activityId, d))
    {
      var attended := IsAttended(activityId, attendedDays, year, month, day);
      var sunday := (firstDayOfMonth + day - 1) % 7 == 0;
      var isToday := day == today;
      days := days + [DayCell(day, attended, sunday, isToday, TapEvent(activityId, day))];
      day := day + 1;
    }
  }

  /** Dispatching a cell's tap to the store flips the mark of that day and of no other day of the
      month. */
  lemma TapFlipsOnlyThatDay(e: TapEvent, attendedDays: set<string>, year: nat, month: nat, day: nat)
    ensures var after := Toggle(attendedDays, KeyString(DayKey(e.activityId, year, month, e.day)));
      IsAttended(e.activityId, after, year, month, day)
        == if day == e.day then !IsAttended(e.activityId, attendedDays, year, month, day)
           else IsAttended(e.activityId, attendedDays, year, month, day)
  {
    SameActivityKeysDiffer(DayKey(e.activityId, year, month, e.day), DayKey(e.activityId, year, month, day));
  }

  /** The monthly count for a hyphen-free activity over structured keys with real months: exactly
      the month, except that February (month 1) also takes in November and December of that year,
      because the prefix carries no trailing `-`. */
  lemma MonthCountSelectsMonth(keys: set<DayKey>, activityId: string, year: nat, month: nat)
    requires HyphenFreeIds(keys) && HyphenFree(activityId)
    requires month < 12 && forall k :: k in keys ==> k.month < 12
    ensures month != 1 ==>
      MonthCount(Encoded(keys), activityId, year, month)
        == |set k | k in keys && k.activityId == activityId && k.year == year && k.month == month|
    ensures month == 1 ==>
      MonthCount(Encoded(keys), activityId, year, month)
        == |set k | k in keys && k.activityId == activityId && k.year == year
                    && (k.month == 1 || k.month == 10 || k.month == 11)|
  {
    MonthCountOfEncoded(keys, activityId, year, month);
    if month != 1 {
      assert (set k | k in keys && k.activityId == activityId && k.year == year && MonthDigitsSelect(month, k.month))
          == (set k | k in keys && k.activityId == activityId && k.year == year && k.month == month);
    } else {
      assert (set k | k in keys && k.activityId == activityId && k.year == year && MonthDigitsSelect(month, k.month))
          == (set k | k in keys && k.activityId == activityId && k.year == year
                      && (k.month == 1 || k.month == 10 || k.month == 11));
    }
  }

  /** A concrete instance of that overlap: a marked 5 November is counted when February of the same
      year is shown. */
  lemma FebruaryCountsNovember(activityId: string, year: nat)
    ensures MonthCount({KeyString(DayKey(activityId, year, 10, 5))}, activityId, year, 1) == 1
  {
    var key := KeyString(DayKey(activityId, year, 10, 5));
    var days := {key};
    assert Digits(10) == Digits(1) + [DigitChar(0)];
    assert Digits(1) <= Digits(10);
    DateMatchesMonth(year, 1, year, 10, 5);
    var prefix := activityId + "-" + MonthPrefix(year, 1);
    assert prefix <= key by {
      assert key == activityId + "-" + DateKey(year, 10, 5);
      assert MonthPrefix(year, 1) <= DateKey(year, 10, 5);
    }
    assert (set s | s in days && prefix <= s) == days;
  }
}
