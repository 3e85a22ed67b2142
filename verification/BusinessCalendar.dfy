/** The weekend-only demo calendar. A date is its proleptic Gregorian ordinal, 1 being a Monday. */
module BusinessCalendar {
  import opened Wrappers
  import Calendar

  /** The ordinal of the last representable date; one day more raises. */
  const LAST: int := 3652059

  newtype Date = d: int | 1 <= d <= LAST witness 1

  datatype CalendarError = Overflow

  function NextDay(d: Date): Result<Date, CalendarError>
  {
    if d as int == LAST then Err(Overflow) else Ok(d + 1)
  }

  /** Monday is 0. */
  function Weekday(d: int): int
  {
    (d + 6) % 7
  }

  /** Weekdays follow each other, and the first day of the calendar is a Monday. */
  lemma WeekdaysFollow(d: int)
    ensures 0 <= Weekday(d) < 7 && Weekday(d + 1) == (Weekday(d) + 1) % 7
    ensures d == 1 + Calendar.DayOf(1, 1, 1) ==> Weekday(d) == 0
    ensures LAST == 1 + Calendar.DayOf(9999, 12, 31) && Weekday(LAST) == 4
  {
    Calendar.MonthStarts(9999);
  }

  predicate Business(d: int)
  {
    Weekday(d) < 5
  }

  // ---------------------------------------------------------------- rolling to a weekday

  /** The first business day on or after the date. */
  ghost predicate FirstBusiness(d: int, r: int)
  {
    d <= r && Business(r) && forall e | d <= e < r :: !Business(e)
  }

  function Rolled(d: int): (r: int)
    ensures FirstBusiness(d, r)
  {
    if Business(d) then d else d + 7 - Weekday(d)
  }

  /** Never raises: the last representable date is a Friday. */
  method NextBusinessDate(start: Date) returns (r: Result<Date, CalendarError>)
    ensures r.Ok? && r.value as int == Rolled(start as int)
  {
    var current := start;
    while Weekday(current as int) >= 5
      invariant Rolled(current as int) == Rolled(start as int)
      decreases Rolled(current as int) - current as int
    {
      var next := NextDay(current);
      if next.Err? { return next; }
      current := next.value;
    }
    r := Ok(current);
  }

  // ---------------------------------------------------------------- advancing

  /** n business days after a business day, without iterating. */
  function Advanced(d: int, n: nat): int
  {
    d + n + 2 * ((Weekday(d) + n) / 5)
  }

  lemma AdvancedStep(d: int, n: nat)
    requires Business(d)
    ensures Business(Advanced(d, n)) && Weekday(Advanced(d, n)) == (Weekday(d) + n) % 5
    ensures Advanced(d, n + 1) == Rolled(Advanced(d, n) + 1)
  {
    var w := Weekday(d) + n;
    WeekdayShift(d, n);
    assert (w + 1) / 5 == if w % 5 == 4 then w / 5 + 1 else w / 5;
  }

  /** Each five weekdays from Monday cost seven days. */
  lemma WeekdayShift(d: int, n: nat)
    requires Business(d)
    ensures Weekday(Advanced(d, n)) == (Weekday(d) + n) % 5
  {
    var w, k := Weekday(d) + n, (Weekday(d) + n) / 5;
    var week := (d + 6) / 7;
    assert d + 6 == 7 * week + Weekday(d);
    assert w == 5 * k + w % 5;
    assert Advanced(d, n) + 6 == 7 * (week + k) + w % 5;
  }

  /** Advancing raises exactly when the closed form passes the last date; a count below one only rolls. */
  method AdvanceBusinessDays(start: Date, count: int) returns (r: Result<Date, CalendarError>)
    ensures var n := if count < 0 then 0 else count;
            var d := Advanced(Rolled(start as int), n);
            (r.Ok? <==> d <= LAST) && (r.Ok? ==> r.value as int == d)
  {
    ghost var base := Rolled(start as int);
    ghost var total := if count < 0 then 0 else count;
    var rolled := NextBusinessDate(start);
    if rolled.Err? { return rolled; }
    var current := rolled.value;
    var i := 0;
    while i < count
      invariant 0 <= i <= total && current as int == Advanced(base, i)
    {
      AdvancedStep(base, i);
      AdvancedAdds(base, i + 1, total - i - 1);
      var next := NextDay(current);
      if next.Err? { return next; }
      var business := NextBusinessDate(next.value);
      if business.Err? { return business; }
      current := business.value;
      i := i + 1;
    }
    r := Ok(current);
  }

  /** Advancing is additive, and so never goes back. */
  lemma AdvancedAdds(d: int, m: nat, n: nat)
    requires Business(d)
    ensures Advanced(Advanced(d, m), n) == Advanced(d, m + n)
    ensures Advanced(d, m + n) >= Advanced(d, m) + n
  {
    WeekdayShift(d, m);
    var w := Weekday(d) + m;
    assert w == 5 * (w / 5) + w % 5;
    assert (w + n) / 5 == w / 5 + (w % 5 + n) / 5;
  }

  lemma AdvancedIncreases(d: int, m: nat, n: nat)
    requires Business(d) && m < n
    ensures Advanced(d, m) < Advanced(d, n)
  {
  }

  // ---------------------------------------------------------------- the list of business days

  ghost predicate Increasing(ds: seq<int>)
  {
    forall i, j | 0 <= i < j < |ds| :: ds[i] < ds[j]
  }

  /** Exactly the business days from start to end, in order. */
  ghost predicate BusinessDaysOf(start: int, end: int, ds: seq<int>)
  {
    Increasing(ds) && forall d :: d in ds <==> start <= d <= end && Business(d)
  }

  function Ordinals(ds: seq<Date>): seq<int>
  {
    seq(|ds|, i requires 0 <= i < |ds| => ds[i] as int)
  }

  lemma DayConsidered(start: int, d: int, ds: seq<int>)
    requires start <= d && BusinessDaysOf(start, d - 1, ds)
    ensures BusinessDaysOf(start, d, if Business(d) then ds + [d] else ds)
  {
    if Business(d) {
      var es := ds + [d];
      assert forall i | 0 <= i < |ds| :: ds[i] in ds;
      forall e ensures e in es <==> start <= e <= d && Business(e) {
        if e == d { assert es[|ds|] == d; }
      }
    }
  }

  /** The list raises exactly when it would step past the last date, that is when a non-empty range ends there. */
  method BusinessDates(start: Date, end: Date) returns (r: Result<seq<Date>, CalendarError>)
    ensures r.Ok? <==> end < start || end as int < LAST
    ensures r.Ok? ==> BusinessDaysOf(start as int, end as int, Ordinals(r.value))
  {
    var dates: seq<Date> := [];
    var current := start;
    while current <= end
      invariant start <= current && (current <= end || current == start || current == end + 1)
      invariant BusinessDaysOf(start as int, current as int - 1, Ordinals(dates))
      decreases end as int - current as int
    {
      DayConsidered(start as int, current as int, Ordinals(dates));
      if Weekday(current as int) < 5 {
        assert Ordinals(dates + [current]) == Ordinals(dates) + [current as int];
        dates := dates + [current];
      }
      var next := NextDay(current);
      if next.Err? { return Err(next.error); }
      current := next.value;
    }
    r := Ok(dates);
  }

  /** The n-th entry of the list is the n-th advance from the rolled start, and the list is as long
      as those advances stay in the range. */
  lemma {:induction false} NthBusinessDay(start: int, end: int, ds: seq<int>, n: nat)
    requires BusinessDaysOf(start, end, ds)
    ensures n < |ds| <==> Advanced(Rolled(start), n) <= end
    ensures n < |ds| ==> ds[n] == Advanced(Rolled(start), n)
    decreases n
  {
    var base := Rolled(start);
    if n == 0 {
      assert Advanced(base, 0) == base;
      if base <= end { assert base in ds; }
      if 0 < |ds| { assert ds[0] in ds; FirstIsLeast(ds, base); }
    } else {
      NthBusinessDay(start, end, ds, n - 1);
      AdvancedStep(base, n - 1);
      if n <= |ds| {
        NextEntry(start, end, ds, n);
      } else {
        AdvancedAdds(base, n - 1, 1);
      }
    }
  }

  /** An entry is followed by the first business day after it, while that is in the range. */
  lemma NextEntry(start: int, end: int, ds: seq<int>, n: nat)
    requires BusinessDaysOf(start, end, ds) && 0 < n <= |ds|
    ensures var next := Rolled(ds[n - 1] + 1); (n < |ds| <==> next <= end) && (n < |ds| ==> ds[n] == next)
  {
    var next := Rolled(ds[n - 1] + 1);
    assert ds[n - 1] in ds;
    if next <= end {
      assert next in ds;
      var k :| 0 <= k < |ds| && ds[k] == next;
      assert ds[n - 1] < ds[k];
      NothingBetween(ds, n, next);
    }
    if n < |ds| { assert ds[n] in ds && ds[n - 1] < ds[n]; }
  }

  lemma FirstIsLeast(ds: seq<int>, d: int)
    requires Increasing(ds) && d in ds && |ds| > 0
    ensures ds[0] <= d
  {
  }

  lemma NothingBetween(ds: seq<int>, n: nat, d: int)
    requires Increasing(ds) && 0 < n < |ds| && d in ds && ds[n - 1] < d
    ensures ds[n] <= d
  {
  }

  /** Every later business day is one advance, and only one. */
  lemma AdvancedReachesAll(d: int, e: int) returns (n: nat)
    requires Business(d) && Business(e) && d <= e
    ensures Advanced(d, n) == e
    ensures forall m: nat | Advanced(d, m) == e :: m == n
  {
    var weeks := (e + 6) / 7 - (d + 6) / 7;
    n := 5 * weeks + Weekday(e) - Weekday(d);
    assert (Weekday(d) + n) / 5 == weeks;
    assert e - d == 7 * weeks + Weekday(e) - Weekday(d);
    forall m: nat | m != n ensures Advanced(d, m) != e {
      if m < n { AdvancedIncreases(d, m, n); } else { AdvancedIncreases(d, n, m); }
    }
  }
}
