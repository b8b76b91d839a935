/**
 * Calendar dates and the month key.  A month is represented, as in the
 * pipeline, by the date of its first day.
 */
module Calendar {
  import opened Finite

  datatype CalendarDate = CalendarDate(year: int, month: int, day: int)

  /** Gregorian leap years. */
  predicate IsLeapYear(y: int)
  {
    (y % 4 == 0 && y % 100 != 0) || y % 400 == 0
  }

  function DaysInMonth(y: int, m: int): (n: int)
    requires 1 <= m <= 12
    ensures 28 <= n <= 31
    ensures m == 2 ==> (n == 29 <==> IsLeapYear(y))
  {
    if m == 2 then (if IsLeapYear(y) then 29 else 28)
    else if m == 4 || m == 6 || m == 9 || m == 11 then 30
    else 31
  }

  predicate ValidDate(d: CalendarDate)
  {
    1 <= d.month <= 12 && 1 <= d.day <= DaysInMonth(d.year, d.month)
  }

  /** A calendar day that exists. */
  type Date = d: CalendarDate | ValidDate(d) witness CalendarDate(1970, 1, 1)

  /** Strict chronological order. */
  predicate Before(a: Date, b: Date)
  {
    a.year < b.year
    || (a.year == b.year && (a.month < b.month || (a.month == b.month && a.day < b.day)))
  }

  predicate NotAfter(a: Date, b: Date)
  {
    a == b || Before(a, b)
  }

  lemma NotAfterTransitive(a: Date, b: Date, c: Date)
    requires NotAfter(a, b) && NotAfter(b, c)
    ensures NotAfter(a, c)
  {
  }

  predicate SameMonth(a: Date, b: Date)
  {
    a.year == b.year && a.month == b.month
  }

  /**
   * The month key of a day: the first day of its calendar month
   * (`to_period("M").to_timestamp()`).
   */
  function MonthStart(d: Date): (k: Date)
    ensures SameMonth(k, d) && k.day == 1
    ensures NotAfter(k, d)
  {
    CalendarDate(d.year, d.month, 1)
  }

  /** Two days get the same key exactly when they lie in the same calendar month. */
  lemma SameKeyIffSameMonth(a: Date, b: Date)
    ensures MonthStart(a) == MonthStart(b) <==> SameMonth(a, b)
  {
  }

  /** The key is the earliest day of its month, and is its own key. */
  lemma MonthStartIsEarliest(d: Date, e: Date)
    requires SameMonth(d, e)
    ensures NotAfter(MonthStart(d), e)
    ensures MonthStart(MonthStart(d)) == MonthStart(d)
  {
  }

  /** Truncation to the month keeps chronological order. */
  lemma MonthStartMonotone(a: Date, b: Date)
    requires NotAfter(a, b)
    ensures NotAfter(MonthStart(a), MonthStart(b))
  {
  }

  /** Every finite non-empty set of dates has an earliest element. */
  lemma {:induction false} EarliestExists(s: set<Date>)
    requires s != {}
    ensures exists m :: m in s && forall x :: x in s ==> NotAfter(m, x)
  {
    var y :| y in s;
    if s != {y} {
      EarliestExists(s - {y});
      var m :| m in s - {y} && forall x :: x in s - {y} ==> NotAfter(m, x);
      if Before(y, m) {
        forall x | x in s ensures NotAfter(y, x) {
          if x != y {
            assert NotAfter(m, x);
          }
        }
      } else {
        assert forall x :: x in s ==> NotAfter(m, x);
      }
    }
  }

  /** Strictly ascending: each date is before every later one. */
  predicate Ascending(ms: seq<Date>)
  {
    forall i, j | 0 <= i < j < |ms| :: Before(ms[i], ms[j])
  }

  /**
   * `ms` lists, in ascending order, the keys picked so far, and each of
   * them is earlier than every key still `remaining`.
   */
  ghost predicate PickedInOrder(keys: set<Date>, ms: seq<Date>, remaining: set<Date>)
  {
    && Elements(ms) + remaining == keys && Elements(ms) !! remaining
    && Ascending(ms)
    && (forall i, x | 0 <= i < |ms| && x in remaining :: Before(ms[i], x))
    && |ms| + |remaining| == |keys|
  }

  /** Appending a date later than every listed one keeps a list ascending. */
  lemma AscendingAppend(ms: seq<Date>, m: Date)
    requires Ascending(ms)
    requires forall i | 0 <= i < |ms| :: Before(ms[i], m)
    ensures Ascending(ms + [m])
  {
    var ms' := ms + [m];
    forall i, j | 0 <= i < j < |ms'| ensures Before(ms'[i], ms'[j]) {
      if j == |ms| {
        assert ms'[i] == ms[i];
      } else {
        assert ms'[i] == ms[i] && ms'[j] == ms[j];
      }
    }
  }

  /** Picking the earliest remaining key keeps the keys picked in order. */
  lemma PickEarliest(keys: set<Date>, ms: seq<Date>, remaining: set<Date>, m: Date)
    requires PickedInOrder(keys, ms, remaining)
    requires m in remaining && forall x :: x in remaining ==> NotAfter(m, x)
    ensures PickedInOrder(keys, ms + [m], remaining - {m})
  {
    var ms' := ms + [m];
    assert Elements(ms') == Elements(ms) + {m};
    AscendingAppend(ms, m);
    forall i, x | 0 <= i < |ms'| && x in remaining - {m} ensures Before(ms'[i], x) {
      if i < |ms| {
        assert ms'[i] == ms[i];
      }
    }
  }

  /**
   * The group keys in the order `groupby` visits them: every key once,
   * earliest first.
   */
  method SortedKeys(keys: set<Date>) returns (ms: seq<Date>)
    ensures Elements(ms) == keys
    ensures Ascending(ms)
    ensures |ms| == |keys|
  {
    var remaining := keys;
    ms := [];
    while remaining != {}
      invariant PickedInOrder(keys, ms, remaining)
      decreases |remaining|
    {
      EarliestExists(remaining);
      var m :| m in remaining && forall x :: x in remaining ==> NotAfter(m, x);
      PickEarliest(keys, ms, remaining, m);
      ms := ms + [m];
      remaining := remaining - {m};
    }
  }
}
