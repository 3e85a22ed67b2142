/** The anchored demo index series over exact reals: levels compounded day by day from one anchor
    date, before it and after it. A date is its day number. */
module IndexSeries {
  import opened Wrappers

  /** The parameters of one index: its level on the anchor date, and the daily return as a function
      of the non-zero offset from the anchor. */
  datatype Index = Index(start: real, anchor: int, shape: int -> real)

  function Return(x: Index, d: int): real
  {
    if d == x.anchor then 0.0 else x.shape(d - x.anchor)
  }

  function Factor(x: Index, d: int): real
  {
    1.0 + Return(x, d)
  }

  datatype SeriesError = Unordered | ZeroDivision

  datatype Observation = Observation(date: int, price: real, dailyReturn: real)

  // ---------------------------------------------------------------- specification

  /** The product of the growth factors of the days after `a` up to `b`. */
  function Growth(x: Index, a: int, b: int): real
    requires a <= b
    decreases b - a
  {
    if a == b then 1.0 else Growth(x, a, b - 1) * Factor(x, b)
  }

  /** No growth factor of the days after `a` up to `b` is zero. */
  ghost predicate NonZero(x: Index, a: int, b: int)
  {
    forall d | a < d <= b :: Factor(x, d) != 0.0
  }

  lemma {:induction false} GrowthNonZero(x: Index, a: int, b: int)
    requires a <= b && NonZero(x, a, b)
    ensures Growth(x, a, b) != 0.0
    decreases b - a
  {
    if a < b {
      GrowthNonZero(x, a, b - 1);
      assert Factor(x, b) != 0.0;
    }
  }

  /** The level of a date, defined while no factor between it and a later anchor is zero. */
  function Level(x: Index, d: int): real
    requires NonZero(x, d, x.anchor)
  {
    if d >= x.anchor then x.start * Growth(x, x.anchor, d)
    else GrowthNonZero(x, d, x.anchor); x.start / Growth(x, d, x.anchor)
  }

  lemma Product3(a: real, b: real, c: real)
    ensures (a * b) * c == a * (b * c)
  {
  }

  lemma {:induction false} GrowthFirst(x: Index, a: int, b: int)
    requires a < b
    ensures Growth(x, a, b) == Factor(x, a + 1) * Growth(x, a + 1, b)
    decreases b - a
  {
    if a + 1 < b {
      GrowthFirst(x, a, b - 1);
      Product3(Factor(x, a + 1), Growth(x, a + 1, b - 1), Factor(x, b));
    } else {
      assert Growth(x, a, a) == 1.0 && Growth(x, a + 1, b) == 1.0;
    }
  }

  lemma QuotientTimes(s: real, f: real, g: real)
    requires f != 0.0 && g != 0.0
    ensures f * g != 0.0 && s / (f * g) * f == s / g
  {
  }

  lemma StepAfterAnchor(x: Index, d: int)
    requires d > x.anchor
    ensures Level(x, d) == Level(x, d - 1) * Factor(x, d)
  {
  }

  lemma StepToAnchor(x: Index, d: int)
    requires d <= x.anchor && NonZero(x, d - 1, x.anchor)
    ensures NonZero(x, d, x.anchor) && Level(x, d) == Level(x, d - 1) * Factor(x, d)
  {
    assert Factor(x, d) != 0.0;
    hide Factor;
    GrowthFirst(x, d - 1, x.anchor);
    GrowthNonZero(x, d, x.anchor);
    QuotientTimes(x.start, Factor(x, d), Growth(x, d, x.anchor));
    if d == x.anchor { assert Growth(x, d, d) == 1.0; }
  }

  /** Each day's level is the day before's, grown by the day's factor, on both sides of the anchor. */
  lemma LevelStep(x: Index, d: int)
    requires NonZero(x, d - 1, x.anchor)
    ensures NonZero(x, d, x.anchor) && Level(x, d) == Level(x, d - 1) * Factor(x, d)
  {
    hide Growth, Factor;
    if d > x.anchor { StepAfterAnchor(x, d); } else { StepToAnchor(x, d); }
  }

  /** A level path: `start` on the anchor, and compounding over the days after `a` up to `b`. */
  ghost predicate Compounds(x: Index, path: int -> real, a: int, b: int)
  {
    path(x.anchor) == x.start && forall d | a < d <= b ::
      path(d) == path(d - 1) * (1.0 + if d == x.anchor then 0.0 else x.shape(d - x.anchor))
  }

  /** Levels are the only such path, so they do not depend on how they are computed. */
  lemma {:induction false} LevelUnique(x: Index, path: int -> real, a: int, b: int, d: int)
    requires a <= x.anchor <= b && a <= d <= b && Compounds(x, path, a, b) && NonZero(x, d, x.anchor)
    ensures path(d) == Level(x, d)
    decreases if d >= x.anchor then d - x.anchor else x.anchor - d
  {
    if d > x.anchor {
      LevelUnique(x, path, a, b, d - 1);
      LevelStep(x, d);
    } else if d < x.anchor {
      LevelUnique(x, path, a, b, d + 1);
      LevelStep(x, d + 1);
      assert path(d + 1) == path(d) * Factor(x, d + 1);
      assert Factor(x, d + 1) != 0.0;
      Cancel(path(d), Level(x, d), Factor(x, d + 1));
    } else {
      assert Growth(x, d, d) == 1.0;
    }
  }

  lemma Cancel(a: real, b: real, f: real)
    requires f != 0.0 && a * f == b * f
    ensures a == b
  {
  }

  // ---------------------------------------------------------------- the two loops

  /** `level_at`: forwards by multiplication or backwards by division, raising on a zero divisor. */
  method LevelAt(x: Index, d: int) returns (r: Result<real, SeriesError>)
    ensures r.Ok? <==> NonZero(x, d, x.anchor)
    ensures r.Ok? ==> r.value == Level(x, d)
    ensures r.Err? ==> r.error == ZeroDivision
  {
    var level, current := x.start, x.anchor;
    assert Growth(x, current, current) == 1.0;
    while current < d
      invariant x.anchor <= current && (current <= d || current == x.anchor)
      invariant level == Level(x, current)
    {
      current := current + 1;
      LevelStep(x, current);
      level := level * Factor(x, current);
    }
    while current > d
      invariant d <= current && (current <= x.anchor || current == d)
      invariant NonZero(x, current, x.anchor) && level == Level(x, current)
    {
      var f := Factor(x, current);
      if f == 0.0 { return Err(ZeroDivision); }
      LevelStep(x, current);
      Cancel(level / f, Level(x, current - 1), f);
      level := level / f;
      current := current - 1;
    }
    r := Ok(level);
  }

  predicate Ordered(dates: seq<int>)
  {
    forall i, j | 0 <= i <= j < |dates| :: dates[i] <= dates[j]
  }

  /** What a series must be: every price is the date's level, every return the date's return. */
  ghost predicate SeriesOf(x: Index, dates: seq<int>, out: seq<Observation>)
  {
    |out| == |dates| && forall i | 0 <= i < |dates| ::
      && NonZero(x, dates[i], x.anchor)
      && out[i] == Observation(dates[i], Level(x, dates[i]), Return(x, dates[i]))
  }

  function AnchorOf(dates: seq<int>, economicAnchor: Option<int>): int
    requires dates != []
  {
    if economicAnchor.Some? then economicAnchor.value else dates[0]
  }

  /** The streaming builder: one level is carried along the dates, day by day. It fails exactly on
      unordered dates, or on a zero factor between the first date and a later anchor; otherwise
      every streamed price is the level of its date. */
  method BuildSeries(dates: seq<int>, start: real, shape: int -> real, economicAnchor: Option<int>)
    returns (r: Result<seq<Observation>, SeriesError>)
    ensures dates == [] ==> r == Ok([])
    ensures dates != [] ==>
              var x := Index(start, AnchorOf(dates, economicAnchor), shape);
              && (r.Ok? <==> Ordered(dates) && NonZero(x, dates[0], x.anchor))
              && (r.Ok? ==> SeriesOf(x, dates, r.value))
              && (r.Ok? && economicAnchor == None ==> r.value[0] == Observation(dates[0], start, 0.0))
              && (r.Err? ==> r.error == if Ordered(dates) then ZeroDivision else Unordered)
  {
    if dates == [] { return Ok([]); }
    if !Ordered(dates) { return Err(Unordered); }
    var x := Index(start, AnchorOf(dates, economicAnchor), shape);
    var first := LevelAt(x, dates[0]);
    if first.Err? { return Err(first.error); }
    var level := first.value;
    var out := [];
    var previous := dates[0];
    for i := 0 to |dates|
      invariant |out| == i && previous == (if i == 0 then dates[0] else dates[i - 1])
      invariant NonZero(x, previous, x.anchor) && level == Level(x, previous)
      invariant SeriesOf(x, dates[..i], out)
    {
      var cursor := previous;
      while cursor < dates[i]
        invariant previous <= cursor <= dates[i]
        invariant NonZero(x, cursor, x.anchor) && level == Level(x, cursor)
      {
        cursor := cursor + 1;
        LevelStep(x, cursor);
        level := level * Factor(x, cursor);
      }
      out := out + [Observation(dates[i], level, Return(x, dates[i]))];
      previous := dates[i];
      assert dates[..i + 1] == dates[..i] + [dates[i]];
    }
    assert dates[..|dates|] == dates;
    r := Ok(out);
  }

  // ---------------------------------------------------------------- what follows

  /** Two windows over one index and anchor agree on every date they share. */
  lemma WindowsAgree(x: Index, ds: seq<int>, a: seq<Observation>, es: seq<int>, b: seq<Observation>, i: nat, j: nat)
    requires SeriesOf(x, ds, a) && SeriesOf(x, es, b)
    requires i < |ds| && j < |es| && ds[i] == es[j]
    ensures a[i] == b[j]
  {
  }

  /** Between consecutive days the price moves by exactly the published return. */
  lemma ConsecutivePrices(x: Index, ds: seq<int>, out: seq<Observation>, i: nat)
    requires SeriesOf(x, ds, out) && i + 1 < |ds| && ds[i + 1] == ds[i] + 1
    ensures out[i + 1].price == out[i].price * (1.0 + out[i + 1].dailyReturn)
  {
    assert out[i] == Observation(ds[i], Level(x, ds[i]), Return(x, ds[i]));
    assert out[i + 1] == Observation(ds[i + 1], Level(x, ds[i + 1]), Return(x, ds[i + 1]));
    LevelStep(x, ds[i + 1]);
  }

  /** On the anchor the price is the start level and the return is zero. */
  lemma AnchorObservation(x: Index, ds: seq<int>, out: seq<Observation>, i: nat)
    requires SeriesOf(x, ds, out) && i < |ds| && ds[i] == x.anchor
    ensures out[i] == Observation(x.anchor, x.start, 0.0)
  {
  }

  // ---------------------------------------------------------------- different anchors

  function Doubling(n: nat): (r: real)
    ensures r >= 1.0
  {
    if n == 0 then 1.0 else 2.0 * Doubling(n - 1)
  }

  lemma {:induction false} DoublingIncreases(m: nat, n: nat)
    requires m < n
    ensures Doubling(m) < Doubling(n)
  {
    if m + 1 < n { DoublingIncreases(m, n - 1); }
  }

  /** With a return of one hundred percent on every day but the anchor. */
  lemma {:induction false} DoublingGrowth(x: Index, d: int)
    requires x.anchor <= d && forall k :: x.shape(k) == 1.0
    ensures Growth(x, x.anchor, d) == Doubling(d - x.anchor)
    decreases d - x.anchor
  {
    if x.anchor < d { DoublingGrowth(x, d - 1); }
  }

  lemma ScaledDiffer(a: real, b: real, f: real)
    requires f != 0.0 && a != b
    ensures f * a != f * b
  {
    if f * a == f * b { Cancel(a, b, f); }
  }

  lemma AnchorsDiffer(start: real, a: int, b: int, d: int, shape: int -> real)
    requires start != 0.0 && a < b <= d && forall k :: shape(k) == 1.0
    ensures Level(Index(start, a, shape), d) != Level(Index(start, b, shape), d)
  {
    hide Growth, Doubling;
    DoublingGrowth(Index(start, a, shape), d);
    DoublingGrowth(Index(start, b, shape), d);
    DoublingIncreases(d - b, d - a);
    ScaledDiffer(Doubling(d - a), Doubling(d - b), start);
  }

  ghost predicate AnchorsAgree(start: real, a: int, b: int, d: int)
    requires a <= d && b <= d
  {
    forall shape: int -> real :: Level(Index(start, a, shape), d) == Level(Index(start, b, shape), d)
  }

  /** Two anchors give a later date the same level for every shape of returns exactly when they are the
      same anchor, or the start level is zero. Without a stated anchor each window is anchored on its
      own first date, so windows with different first dates need not agree. */
  lemma AnchorsAgreeExactly(start: real, a: int, b: int, d: int)
    requires a <= d && b <= d
    ensures AnchorsAgree(start, a, b, d) <==> a == b || start == 0.0
  {
    var ones := (k: int) => 1.0;
    if a < b && start != 0.0 { AnchorsDiffer(start, a, b, d, ones); }
    if b < a && start != 0.0 { AnchorsDiffer(start, b, a, d, ones); }
  }
}
