/** The attendance store: a set of string keys `${activityId}-${year}-${month}-${day}` (month
    zero-based), the prefix counts taken over it, the toggle and the purge. Alongside, the
    structured key DayKey and lemmas showing that, for hyphen-free activity ids, the string store
    behaves like a set of structured keys. */
module Attendance {
  import opened Strings

  /** One attended day of one activity; `month` is zero-based (0 = January). */
  datatype DayKey = DayKey(activityId: string, year: nat, month: nat, day: nat)

  /** `${year}-${month}-${day}`: the date part of an attendance key, and the whole key of the
      single-activity tracker. */
  function DateKey(year: nat, month: nat, day: nat): (r: string)
    ensures MonthPrefix(year, month) + "-" <= r
  {
    assert Digits(year) + "-" + (Digits(month) + "-" + Digits(day))
        == (MonthPrefix(year, month) + "-") + Digits(day);
    Digits(year) + "-" + (Digits(month) + "-" + Digits(day))
  }

  /** `${year}-${month}`: the month prefix, with no trailing `-`. */
  function MonthPrefix(year: nat, month: nat): string {
    Digits(year) + "-" + Digits(month)
  }

  /** The string the app stores for a structured key. */
  function KeyString(k: DayKey): (r: string)
    ensures k.activityId + "-" <= r
    ensures k.activityId + "-" + MonthPrefix(k.year, k.month) <= r
  {
    var date := DateKey(k.year, k.month, k.day);
    var rest := date[|MonthPrefix(k.year, k.month)|..];
    assert date == MonthPrefix(k.year, k.month) + rest;
    assert k.activityId + "-" + date == (k.activityId + "-" + MonthPrefix(k.year, k.month)) + rest;
    k.activityId + "-" + date
  }

  /** The strings of a set of structured keys. */
  function Encoded(keys: set<DayKey>): set<string> {
    set k | k in keys :: KeyString(k)
  }

  ghost predicate HyphenFreeIds(keys: set<DayKey>) {
    forall k :: k in keys ==> HyphenFree(k.activityId)
  }

  /** `Array.from(days).filter(key => key.startsWith(prefix)).length` */
  function CountWithPrefix(days: set<string>, prefix: string): (n: nat)
    ensures n <= |days|
    ensures n == 0 <==> forall s :: s in days ==> !(prefix <= s)
  {
    var matching := set s | s in days && prefix <= s;
    assert matching <= days;
    SubsetCardinality(matching, days);
    assert forall s :: s in days && prefix <= s ==> s in matching;
    |matching|
  }

  /** The lifetime count of an activity: keys starting with `${activityId}-`. It is zero exactly
      when no key carries that prefix. */
  function ActivityCount(days: set<string>, activityId: string): (n: nat)
    ensures n <= |days|
    ensures n == 0 <==> forall s :: s in days ==> !(activityId + "-" <= s)
  {
    CountWithPrefix(days, activityId + "-")
  }

  /** The monthly count of an activity: keys starting with `${activityId}-${year}-${month}`. It is
      zero exactly when no key carries that prefix. */
  function MonthCount(days: set<string>, activityId: string, year: nat, month: nat): (n: nat)
    ensures n <= |days|
    ensures n == 0 <==> forall s :: s in days ==> !(activityId + "-" + MonthPrefix(year, month) <= s)
  {
    CountWithPrefix(days, activityId + "-" + MonthPrefix(year, month))
  }

  /** Flip one key: delete it when present, add it otherwise. */
  function Toggle(days: set<string>, key: string): (r: set<string>)
    ensures key in r <==> key !in days
    ensures forall s :: s != key ==> (s in r <==> s in days)
  {
    if key in days then days - {key} else days + {key}
  }

  /** Remove every key of an activity: the keys not starting with `${activityId}-` remain. */
  function Purge(days: set<string>, activityId: string): (r: set<string>)
    ensures r <= days
    ensures forall s :: s in days ==> (s in r <==> !(activityId + "-" <= s))
    ensures ActivityCount(r, activityId) == 0
  {
    var r := set s | s in days && !(activityId + "-" <= s);
    assert (set s | s in r && activityId + "-" <= s) == {};
    r
  }

  lemma SubsetCardinality(a: set<string>, b: set<string>)
    requires a <= b
    ensures |a| <= |b|
  {
    assert b == a + (b - a);
  }

  // ----- the toggle -----

  lemma ToggleTwice(days: set<string>, key: string)
    ensures Toggle(Toggle(days, key), key) == days
  {
  }

  /** Adding a key that carries the prefix raises the prefix count by exactly one. */
  lemma CountAfterAdd(days: set<string>, key: string, prefix: string)
    requires key !in days && prefix <= key
    ensures CountWithPrefix(days + {key}, prefix) == CountWithPrefix(days, prefix) + 1
  {
    var before := set s | s in days && prefix <= s;
    var after := set s | s in days + {key} && prefix <= s;
    assert after == before + {key};
  }

  /** Removing a key that carries the prefix lowers the prefix count by exactly one. */
  lemma CountAfterRemove(days: set<string>, key: string, prefix: string)
    requires key in days && prefix <= key
    ensures CountWithPrefix(days - {key}, prefix) + 1 == CountWithPrefix(days, prefix)
  {
    CountAfterAdd(days - {key}, key, prefix);
    assert days - {key} + {key} == days;
  }

  /** Changing a key that does not carry the prefix leaves the prefix count alone. */
  lemma CountIgnoresOtherKey(days: set<string>, key: string, prefix: string)
    requires !(prefix <= key)
    ensures CountWithPrefix(Toggle(days, key), prefix) == CountWithPrefix(days, prefix)
  {
    assert (set s | s in Toggle(days, key) && prefix <= s) == (set s | s in days && prefix <= s);
  }

  /** Toggling a day of an activity moves that activity's lifetime count by one: up when the key
      was absent, down when it was present. */
  lemma ToggleActivityCount(days: set<string>, k: DayKey)
    ensures var key := KeyString(k);
      ActivityCount(Toggle(days, key), k.activityId)
        == if key in days then ActivityCount(days, k.activityId) - 1
           else ActivityCount(days, k.activityId) + 1
  {
    var key := KeyString(k);
    if key in days {
      CountAfterRemove(days, key, k.activityId + "-");
    } else {
      CountAfterAdd(days, key, k.activityId + "-");
    }
  }

  /** Toggling a day of one activity leaves the lifetime count of every other (hyphen-free)
      activity unchanged. */
  lemma ToggleOtherActivityCount(days: set<string>, k: DayKey, other: string)
    requires HyphenFree(k.activityId) && HyphenFree(other) && other != k.activityId
    ensures ActivityCount(Toggle(days, KeyString(k)), other) == ActivityCount(days, other)
  {
    HeadPrefix(other, k.activityId, DateKey(k.year, k.month, k.day));
    CountIgnoresOtherKey(days, KeyString(k), other + "-");
  }

  // ----- the purge -----

  /** Purging one activity keeps every key and the lifetime count of every other hyphen-free
      activity. */
  lemma PurgeKeepsOthers(days: set<string>, deleted: string, other: string)
    requires HyphenFree(deleted) && HyphenFree(other) && deleted != other
    ensures forall s :: s in days && other + "-" <= s ==> s in Purge(days, deleted)
    ensures ActivityCount(Purge(days, deleted), other) == ActivityCount(days, other)
  {
    forall s | s in days && other + "-" <= s
      ensures s in Purge(days, deleted)
    {
      if deleted + "-" <= s {
        HyphenHeadsAgree(deleted, other, s);
      }
    }
    var p := Purge(days, deleted);
    assert (set s | s in p && other + "-" <= s) == (set s | s in days && other + "-" <= s);
  }

  // ----- the monthly count -----

  /** Every key counted for the month is counted for the lifetime, hence the monthly count never
      exceeds the lifetime count. */
  lemma MonthCountAtMostActivityCount(days: set<string>, activityId: string, year: nat, month: nat)
    ensures MonthCount(days, activityId, year, month) <= ActivityCount(days, activityId)
  {
    var head := activityId + "-";
    var monthly := set s | s in days && head + MonthPrefix(year, month) <= s;
    var lifetime := set s | s in days && head <= s;
    forall s | s in monthly ensures s in lifetime {
      assert head <= head + MonthPrefix(year, month);
    }
    SubsetCardinality(monthly, lifetime);
  }

  // ----- structured keys -----

  lemma DateKeyInjective(y1: nat, m1: nat, d1: nat, y2: nat, m2: nat, d2: nat)
    requires DateKey(y1, m1, d1) == DateKey(y2, m2, d2)
    ensures y1 == y2 && m1 == m2 && d1 == d2
  {
    DigitsHyphenFree(y1);
    DigitsHyphenFree(y2);
    DigitsHyphenFree(m1);
    DigitsHyphenFree(m2);
    SplitAtHyphen(Digits(y1), Digits(m1) + "-" + Digits(d1), Digits(y2), Digits(m2) + "-" + Digits(d2));
    SplitAtHyphen(Digits(m1), Digits(d1), Digits(m2), Digits(d2));
    DigitsInjective(y1, y2);
    DigitsInjective(m1, m2);
    DigitsInjective(d1, d2);
  }

  /** For hyphen-free ids the key string determines the structured key. */
  lemma KeyStringInjective(k1: DayKey, k2: DayKey)
    requires HyphenFree(k1.activityId) && HyphenFree(k2.activityId)
    ensures KeyString(k1) == KeyString(k2) <==> k1 == k2
  {
    if KeyString(k1) == KeyString(k2) {
      SplitAtHyphen(k1.activityId, DateKey(k1.year, k1.month, k1.day),
                    k2.activityId, DateKey(k2.year, k2.month, k2.day));
      DateKeyInjective(k1.year, k1.month, k1.day, k2.year, k2.month, k2.day);
    }
  }

  /** Two days of the same activity have the same key only when they are the same date; this
      needs no condition on the id. */
  lemma SameActivityKeysDiffer(k1: DayKey, k2: DayKey)
    requires k1.activityId == k2.activityId
    ensures KeyString(k1) == KeyString(k2) <==> k1 == k2
  {
    if KeyString(k1) == KeyString(k2) {
      var n := |k1.activityId| + 1;
      assert DateKey(k1.year, k1.month, k1.day) == KeyString(k1)[n..] == KeyString(k2)[n..]
        == DateKey(k2.year, k2.month, k2.day);
      DateKeyInjective(k1.year, k1.month, k1.day, k2.year, k2.month, k2.day);
    }
  }

  lemma EncodedCardinality(keys: set<DayKey>)
    requires HyphenFreeIds(keys)
    ensures |Encoded(keys)| == |keys|
  {
    forall k1, k2 | k1 in keys && k2 in keys && KeyString(k1) == KeyString(k2) ensures k1 == k2 {
      KeyStringInjective(k1, k2);
    }
    InjectiveImageCardinality(keys, KeyString);
    forall s | s in Encoded(keys) ensures s in Image(keys, KeyString) {
      var k :| k in keys && s == KeyString(k);
      assert KeyString(k) in Image(keys, KeyString);
    }
    assert Image(keys, KeyString) == Encoded(keys);
  }

  /** The image of a set under a function. */
  ghost function Image<T, U>(s: set<T>, f: T -> U): set<U> {
    set x | x in s :: f(x)
  }

  /** An injective function keeps the size of a finite set. */
  lemma {:induction false} InjectiveImageCardinality<T, U>(s: set<T>, f: T -> U)
    requires forall x, y :: x in s && y in s && f(x) == f(y) ==> x == y
    ensures |Image(s, f)| == |s|
  {
    if s != {} {
      var x :| x in s;
      var rest := s - {x};
      InjectiveImageCardinality(rest, f);
      assert f(x) !in Image(rest, f);
      assert Image(s, f) == Image(rest, f) + {f(x)};
    }
  }

  /** The key of an activity's day carries a hyphen-free activity's `${id}-` prefix exactly when
      it belongs to that activity. */
  lemma KeyMatchesActivity(k: DayKey, activityId: string)
    requires HyphenFree(k.activityId) && HyphenFree(activityId)
    ensures activityId + "-" <= KeyString(k) <==> k.activityId == activityId
  {
    HeadPrefix(activityId, k.activityId, DateKey(k.year, k.month, k.day));
  }

  /** The month prefix `${year}-${month}` starts a date key exactly when the years agree and the
      digits of `month` start the digits of the key's month (no trailing `-` is checked). */
  lemma DateMatchesMonth(year: nat, month: nat, y: nat, m: nat, d: nat)
    ensures MonthPrefix(year, month) <= DateKey(y, m, d)
        <==> year == y && Digits(month) <= Digits(m)
  {
    DigitsHyphenFree(year);
    DigitsHyphenFree(y);
    DigitsHyphenFree(month);
    DigitsHyphenFree(m);
    PrefixAfterHyphen(Digits(year), Digits(month), Digits(y), Digits(m) + "-" + Digits(d));
    PrefixBeforeHyphen(Digits(month), Digits(m), Digits(d));
    DigitsInjective(year, y);
  }

  /** The same for a full key and the activity month prefix `${activityId}-${year}-${month}`. */
  lemma KeyMatchesMonth(k: DayKey, activityId: string, year: nat, month: nat)
    requires HyphenFree(k.activityId) && HyphenFree(activityId)
    ensures activityId + "-" + MonthPrefix(year, month) <= KeyString(k)
        <==> k.activityId == activityId && year == k.year && Digits(month) <= Digits(k.month)
  {
    PrefixAfterHyphen(activityId, MonthPrefix(year, month), k.activityId, DateKey(k.year, k.month, k.day));
    DateMatchesMonth(year, month, k.year, k.month, k.day);
  }

  /** Which real months (0..11) the digits of a month select: itself, and for month 1 (February)
      also months 10 and 11 (November, December), whose digits begin with `1`. */
  predicate MonthDigitsSelect(month: nat, m: nat) {
    m == month || (month == 1 && 10 <= m <= 11)
  }

  lemma MonthDigitsPrefix(month: nat, m: nat)
    requires month < 12 && m < 12
    ensures Digits(month) <= Digits(m) <==> MonthDigitsSelect(month, m)
  {
    assert Digits(1) == [DigitChar(1)];
    if m >= 10 {
      assert Digits(m) == [DigitChar(1), DigitChar(m % 10)];
    }
    if month >= 10 {
      assert Digits(month) == [DigitChar(1), DigitChar(month % 10)];
      if Digits(month) <= Digits(m) {
        assert DigitChar(month % 10) == Digits(m)[1] == DigitChar(m % 10);
      }
    }
  }

  /** The lifetime count of a hyphen-free activity over a store of structured keys with
      hyphen-free ids is the number of its keys. */
  lemma ActivityCountOfEncoded(keys: set<DayKey>, activityId: string)
    requires HyphenFreeIds(keys) && HyphenFree(activityId)
    ensures ActivityCount(Encoded(keys), activityId)
         == |set k | k in keys && k.activityId == activityId|
  {
    var own := set k | k in keys && k.activityId == activityId;
    forall k | k in keys ensures activityId + "-" <= KeyString(k) <==> k in own {
      KeyMatchesActivity(k, activityId);
    }
    assert (set s | s in Encoded(keys) && activityId + "-" <= s) == Encoded(own);
    EncodedCardinality(own);
  }

  /** The monthly count over structured keys whose months are real (0..11): the keys of the
      activity in that year whose month the digits select; for every month but February that is
      exactly the month. */
  lemma MonthCountOfEncoded(keys: set<DayKey>, activityId: string, year: nat, month: nat)
    requires HyphenFreeIds(keys) && HyphenFree(activityId)
    requires month < 12 && forall k :: k in keys ==> k.month < 12
    ensures MonthCount(Encoded(keys), activityId, year, month)
         == |set k | k in keys && k.activityId == activityId && k.year == year
                     && MonthDigitsSelect(month, k.month)|
  {
    var own := set k | k in keys && k.activityId == activityId && k.year == year
                       && MonthDigitsSelect(month, k.month);
    var prefix := activityId + "-" + MonthPrefix(year, month);
    forall k | k in keys ensures prefix <= KeyString(k) <==> k in own {
      KeyMatchesMonth(k, activityId, year, month);
      MonthDigitsPrefix(month, k.month);
    }
    assert (set s | s in Encoded(keys) && prefix <= s) == Encoded(own);
    EncodedCardinality(own);
  }

  /** The string toggle is the structured toggle seen through the encoding. */
  lemma ToggleOfEncoded(keys: set<DayKey>, k: DayKey)
    requires HyphenFreeIds(keys) && HyphenFree(k.activityId)
    ensures Toggle(Encoded(keys), KeyString(k))
         == Encoded(if k in keys then keys - {k} else keys + {k})
  {
    forall k2 | k2 in keys ensures KeyString(k2) == KeyString(k) <==> k2 == k {
      KeyStringInjective(k2, k);
    }
    if k in keys {
      assert Encoded(keys) - {KeyString(k)} == Encoded(keys - {k});
    } else {
      assert Encoded(keys) + {KeyString(k)} == Encoded(keys + {k});
    }
  }

  /** The string purge is the removal of the activity's structured keys. */
  lemma PurgeOfEncoded(keys: set<DayKey>, activityId: string)
    requires HyphenFreeIds(keys) && HyphenFree(activityId)
    ensures Purge(Encoded(keys), activityId)
         == Encoded(set k | k in keys && k.activityId != activityId)
  {
    forall k | k in keys ensures activityId + "-" <= KeyString(k) <==> k.activityId == activityId {
      KeyMatchesActivity(k, activityId);
    }
    assert Purge(Encoded(keys), activityId) == Encoded(set k | k in keys && k.activityId != activityId);
  }
}
