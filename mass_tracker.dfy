/** The older single-activity tracker: its own set of keys `${year}-${month}-${day}` with no
    activity id, the toggle, the membership query and the monthly count. */
module Mass {
  import opened Strings
  import opened Attendance

  class MassTracker {
    var attendedDays: set<string>

    /** The set starts empty. */
    constructor ()
      ensures attendedDays == {}
    {
      attendedDays := {};
    }

    /** `toggleDay`, with the clock's year and zero-based month passed in: delete the day's key
        when present, add it otherwise. */
    method ToggleDay(year: nat, month: nat, day: nat)
      modifies this
      ensures attendedDays == Toggle(old(attendedDays), DateKey(year, month, day))
    {
      var dateKey := DateKey(year, month, day);
      var newAttendedDays := attendedDays;
      if dateKey in newAttendedDays {
        newAttendedDays := newAttendedDays - {dateKey};
      } else {
        newAttendedDays := newAttendedDays + {dateKey};
      }
      attendedDays := newAttendedDays;
    }

    /** `isAttended(day)` for the shown year and month. A marked day is always counted in the
        monthly figure. */
    function IsAttended(year: nat, month: nat, day: nat): (r: bool)
      reads this
      ensures r ==> MonthAttendanceCount(year, month) > 0
    {
      DateKey(year, month, day) in attendedDays
    }

    /** `monthAttendanceCount`: keys starting with `${year}-${month}`; zero exactly when no key
        carries that prefix. */
    function MonthAttendanceCount(year: nat, month: nat): (n: nat)
      reads this
      ensures n <= |attendedDays|
      ensures n == 0 <==> forall s :: s in attendedDays ==> !(MonthPrefix(year, month) <= s)
    {
      CountWithPrefix(attendedDays, MonthPrefix(year, month))
    }
  }

  /** A toggle flips the day it is given and no other date. */
  lemma ToggleFlipsOnlyThatDate(days: set<string>, year: nat, month: nat, day: nat, y: nat, m: nat, d: nat)
    ensures var after := Toggle(days, DateKey(year, month, day));
      (DateKey(y, m, d) in after)
        == if (y, m, d) == (year, month, day) then DateKey(y, m, d) !in days
           else DateKey(y, m, d) in days
  {
    if DateKey(y, m, d) == DateKey(year, month, day) {
      DateKeyInjective(y, m, d, year, month, day);
    }
  }

  /** Two toggles of the same day in a row leave the tracker as it was. */
  method ToggleTwiceRestores(t: MassTracker, year: nat, month: nat, day: nat)
    modifies t
    ensures t.attendedDays == old(t.attendedDays)
  {
    t.ToggleDay(year, month, day);
    t.ToggleDay(year, month, day);
    ToggleTwice(old(t.attendedDays), DateKey(year, month, day));
  }

  /** Over dates with real months (0..11), the monthly count is the number of that year's dates
      whose month the digits select: the month itself, and for February (month 1) also November
      and December, since the prefix has no trailing `-`. */
  lemma {:induction false} MonthCountOfDates(dates: set<(nat, nat, nat)>, year: nat, month: nat)
    requires month < 12 && forall t :: t in dates ==> t.1 < 12
    ensures CountWithPrefix(set t | t in dates :: DateKey(t.0, t.1, t.2), MonthPrefix(year, month))
         == |set t | t in dates && t.0 == year && MonthDigitsSelect(month, t.1)|
  {
    var own := set t | t in dates && t.0 == year && MonthDigitsSelect(month, t.1);
    var days := set t | t in dates :: DateKey(t.0, t.1, t.2);
    forall t | t in dates ensures MonthPrefix(year, month) <= DateKey(t.0, t.1, t.2) <==> t in own {
      DateMatchesMonth(year, month, t.0, t.1, t.2);
      MonthDigitsPrefix(month, t.1);
    }
    var matching := set s | s in days && MonthPrefix(year, month) <= s;
    assert matching == set t | t in own :: DateKey(t.0, t.1, t.2);
    DateKeysCardinality(own);
  }

  lemma DateKeysCardinality(dates: set<(nat, nat, nat)>)
    ensures |set t | t in dates :: DateKey(t.0, t.1, t.2)| == |dates|
  {
    var f := (t: (nat, nat, nat)) => DateKey(t.0, t.1, t.2);
    forall t1, t2 | t1 in dates && t2 in dates && f(t1) == f(t2) ensures t1 == t2 {
      DateKeyInjective(t1.0, t1.1, t1.2, t2.0, t2.1, t2.2);
    }
    InjectiveImageCardinality(dates, f);
    var keys := set t | t in dates :: DateKey(t.0, t.1, t.2);
    forall s | s in keys ensures s in Image(dates, f) {
      var t :| t in dates && s == DateKey(t.0, t.1, t.2);
      assert f(t) in Image(dates, f);
    }
    assert Image(dates, f) == keys;
  }
}
