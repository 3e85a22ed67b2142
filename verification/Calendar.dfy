/** The proleptic Gregorian calendar and points in time. A year is astronomical: year 0 is 1 BC. A day is
    counted from 0001-01-01, an instant in microseconds from the start of that day in UTC. */
module Calendar {

  predicate Leap(y: int)
  {
    y % 4 == 0 && (y % 100 != 0 || y % 400 == 0)
  }

  function YearLength(y: int): nat
  {
    if Leap(y) then 366 else 365
  }

  function DaysBeforeYear(y: int): int
  {
    var p := y - 1;
    365 * p + p / 4 - p / 100 + p / 400
  }

  function DaysInMonth(y: int, m: int): nat
  {
    if m == 2 then if Leap(y) then 29 else 28
    else if m in {4, 6, 9, 11} then 30
    else 31
  }

  function DaysBeforeMonth(y: int, m: int): nat
  {
    if m <= 1 then 0 else DaysBeforeMonth(y, m - 1) + DaysInMonth(y, m - 1)
  }

  /** A date and a time of day in UTC. */
  datatype Civil = Civil(year: int, month: int, day: int, hour: nat, minute: nat, second: nat, micro: nat)

  predicate ValidDate(y: int, m: int, d: int)
  {
    1 <= m <= 12 && 1 <= d <= DaysInMonth(y, m)
  }

  predicate Valid(c: Civil)
  {
    ValidDate(c.year, c.month, c.day) && c.hour < 24 && c.minute < 60 && c.second < 60 && c.micro < 1000000
  }

  function DayOf(y: int, m: int, d: int): int
  {
    DaysBeforeYear(y) + DaysBeforeMonth(y, m) + d - 1
  }

  function InstantOf(c: Civil): int
  {
    (((DayOf(c.year, c.month, c.day) * 24 + c.hour) * 60 + c.minute) * 60 + c.second) * 1000000 + c.micro
  }

  // ---------------------------------------------------------------- years

  lemma NextFourth(p: int)
    ensures (p + 1) / 4 == p / 4 + if (p + 1) % 4 == 0 then 1 else 0
  {
  }

  lemma NextHundredth(p: int)
    ensures (p + 1) / 100 == p / 100 + if (p + 1) % 100 == 0 then 1 else 0
  {
  }

  lemma NextFourHundredth(p: int)
    ensures (p + 1) / 400 == p / 400 + if (p + 1) % 400 == 0 then 1 else 0
  {
  }

  lemma LeapDivides(y: int)
    ensures y % 100 == 0 ==> y % 4 == 0
    ensures y % 400 == 0 ==> y % 100 == 0
  {
  }

  lemma NextYear(y: int)
    ensures DaysBeforeYear(y + 1) == DaysBeforeYear(y) + YearLength(y)
  {
    NextFourth(y - 1);
    NextHundredth(y - 1);
    NextFourHundredth(y - 1);
    LeapDivides(y);
  }

  lemma {:induction false} LaterYear(y: int, z: int)
    requires y <= z
    ensures DaysBeforeYear(y) + 365 * (z - y) <= DaysBeforeYear(z)
    decreases z - y
  {
    if y < z {
      NextYear(z - 1);
      LaterYear(y, z - 1);
    }
  }

  /** The cycle of 400 years. */
  lemma Cycle(y: int, q: int)
    ensures DaysBeforeYear(y + 400 * q) == DaysBeforeYear(y) + 146097 * q
  {
    var p := y - 1;
    assert (p + 400 * q) / 4 == p / 4 + 100 * q;
    assert (p + 400 * q) / 100 == p / 100 + 4 * q;
    assert (p + 400 * q) / 400 == p / 400 + q;
  }

  predicate InYear(n: int, y: int)
  {
    DaysBeforeYear(y) <= n < DaysBeforeYear(y + 1)
  }

  /** The year of a day that is not before `y`. */
  function YearFrom(n: int, y: int): (r: int)
    requires DaysBeforeYear(y) <= n
    ensures InYear(n, r)
    decreases n - DaysBeforeYear(y)
  {
    NextYear(y);
    if n < DaysBeforeYear(y + 1) then y else YearFrom(n, y + 1)
  }

  function YearOf(n: int): (r: int)
    ensures InYear(n, r)
  {
    var q := n / 146097;
    Cycle(1, q);
    YearFrom(n, 1 + 400 * q)
  }

  lemma YearUnique(n: int, y: int, z: int)
    requires InYear(n, y) && InYear(n, z)
    ensures y == z
  {
    if y < z { LaterYear(y + 1, z); }
    if z < y { LaterYear(z + 1, y); }
  }

  // ---------------------------------------------------------------- months

  lemma MonthStarts(y: int)
    ensures DaysBeforeMonth(y, 1) == 0 && DaysBeforeMonth(y, 2) == 31
    ensures var f := 31 + DaysInMonth(y, 2);
            && DaysBeforeMonth(y, 3) == f && DaysBeforeMonth(y, 4) == f + 31 && DaysBeforeMonth(y, 5) == f + 61
            && DaysBeforeMonth(y, 6) == f + 92 && DaysBeforeMonth(y, 7) == f + 122 && DaysBeforeMonth(y, 8) == f + 153
            && DaysBeforeMonth(y, 9) == f + 184 && DaysBeforeMonth(y, 10) == f + 214
            && DaysBeforeMonth(y, 11) == f + 245 && DaysBeforeMonth(y, 12) == f + 275
            && DaysBeforeMonth(y, 13) == f + 306 == YearLength(y)
  {
  }

  predicate InMonth(y: int, d: int, m: int)
  {
    DaysBeforeMonth(y, m) <= d < DaysBeforeMonth(y, m + 1)
  }

  /** The month of a day of the year, counted from 0, that is not before month `m`. */
  function MonthFrom(y: int, d: int, m: int): (r: int)
    requires 1 <= m <= 12 && DaysBeforeMonth(y, m) <= d < YearLength(y)
    ensures 1 <= r <= 12 && InMonth(y, d, r)
    decreases 12 - m
  {
    MonthStarts(y);
    if d < DaysBeforeMonth(y, m + 1) then m else MonthFrom(y, d, m + 1)
  }

  lemma {:induction false} LaterMonth(y: int, m: int, n: int)
    requires 1 <= m <= n
    ensures DaysBeforeMonth(y, m) <= DaysBeforeMonth(y, n)
    decreases n - m
  {
    if m < n { LaterMonth(y, m, n - 1); }
  }

  lemma MonthUnique(y: int, d: int, m: int, n: int)
    requires 1 <= m && 1 <= n && InMonth(y, d, m) && InMonth(y, d, n)
    ensures m == n
  {
    if m < n { LaterMonth(y, m + 1, n); }
    if n < m { LaterMonth(y, n + 1, m); }
  }

  lemma DayInYear(y: int, m: int, d: int)
    requires ValidDate(y, m, d)
    ensures InMonth(y, DaysBeforeMonth(y, m) + d - 1, m) && InYear(DayOf(y, m, d), y)
  {
    MonthStarts(y);
    NextYear(y);
    LaterMonth(y, m + 1, 13);
  }

  // ---------------------------------------------------------------- back from an instant

  function DateOf(n: int): (r: (int, int, int))
    ensures ValidDate(r.0, r.1, r.2) && DayOf(r.0, r.1, r.2) == n
  {
    var y := YearOf(n);
    NextYear(y);
    var d := n - DaysBeforeYear(y);
    var m := MonthFrom(y, d, 1);
    (y, m, d - DaysBeforeMonth(y, m) + 1)
  }

  lemma DateUnique(y: int, m: int, d: int)
    requires ValidDate(y, m, d)
    ensures DateOf(DayOf(y, m, d)) == (y, m, d)
  {
    var r := DateOf(DayOf(y, m, d));
    DayInYear(y, m, d);
    DayInYear(r.0, r.1, r.2);
    YearUnique(DayOf(y, m, d), y, r.0);
    MonthUnique(y, DaysBeforeMonth(y, m) + d - 1, m, r.1);
  }

  function CivilOf(i: int): (c: Civil)
    ensures Valid(c) && InstantOf(c) == i
  {
    var seconds := i / 1000000;
    var minutes := seconds / 60;
    var hours := minutes / 60;
    var (y, m, d) := DateOf(hours / 24);
    Civil(y, m, d, hours % 24, minutes % 60, seconds % 60, i % 1000000)
  }

  lemma TimeUnique(a: int, h: nat, mi: nat, s: nat, u: nat)
    requires h < 24 && mi < 60 && s < 60 && u < 1000000
    ensures var i := (((a * 24 + h) * 60 + mi) * 60 + s) * 1000000 + u;
            && i % 1000000 == u && i / 1000000 % 60 == s && i / 1000000 / 60 % 60 == mi
            && i / 1000000 / 60 / 60 % 24 == h && i / 1000000 / 60 / 60 / 24 == a
  {
    var hours := a * 24 + h;
    var minutes := hours * 60 + mi;
    var seconds := minutes * 60 + s;
    assert (seconds * 1000000 + u) / 1000000 == seconds;
    assert seconds / 60 == minutes && minutes / 60 == hours && hours / 24 == a;
  }

  /** Every valid date and time is one instant, and every instant one date and time. */
  lemma CivilUnique(c: Civil)
    requires Valid(c)
    ensures CivilOf(InstantOf(c)) == c
  {
    hide DateOf, DayOf, DaysInMonth;
    TimeUnique(DayOf(c.year, c.month, c.day), c.hour, c.minute, c.second, c.micro);
    DateUnique(c.year, c.month, c.day);
  }

  // ---------------------------------------------------------------- bounds by year

  function YearStart(y: int): int
  {
    InstantOf(Civil(y, 1, 1, 0, 0, 0, 0))
  }

  lemma InstantInDay(c: Civil)
    requires Valid(c)
    ensures var n := DayOf(c.year, c.month, c.day); n * 86400000000 <= InstantOf(c) < (n + 1) * 86400000000
  {
    hide DayOf;
  }

  lemma YearStartIs(y: int)
    ensures YearStart(y) == DaysBeforeYear(y) * 86400000000
  {
    hide DaysBeforeYear;
    assert DaysBeforeMonth(y, 1) == 0;
  }

  lemma YearBound(c: Civil, y: int)
    requires Valid(c)
    ensures c.year >= y <==> InstantOf(c) >= YearStart(y)
  {
    hide InstantOf, YearStart, DaysBeforeYear, DayOf, ValidDate;
    DayInYear(c.year, c.month, c.day);
    InstantInDay(c);
    YearStartIs(y);
    if c.year >= y { LaterYear(y, c.year); } else { LaterYear(c.year + 1, y); }
  }
}
