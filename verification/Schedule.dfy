/** Deterministic topological scheduling of a finite dependency graph:
    repeatedly take the least node whose predecessors have all been taken. */
module Schedule {
  import opened Wrappers

  /** `edges` holds (predecessor, successor) pairs. */
  datatype Graph = Graph(ids: set<string>, edges: set<(string, string)>)

  datatype ScheduleError = NoCanonicalOrder

  /** The foreign keys of the edge table: both ends of an edge are nodes. */
  ghost predicate Closed(g: Graph)
  {
    forall e | e in g.edges :: e.0 in g.ids && e.1 in g.ids
  }

  ghost predicate TotalOrderOn(s: set<string>, leq: (string, string) -> bool)
  {
    && (forall a, b | a in s && b in s :: leq(a, b) || leq(b, a))
    && (forall a, b | a in s && b in s && leq(a, b) && leq(b, a) :: a == b)
    && (forall a, b, c | a in s && b in s && c in s && leq(a, b) && leq(b, c) :: leq(a, c))
  }

  ghost predicate Distinct(xs: seq<string>)
  {
    forall i, j :: 0 <= i < j < |xs| ==> xs[i] != xs[j]
  }

  /** The WHERE clause of the selection query: not yet ordered, and no unordered predecessor. */
  predicate Ready(g: Graph, done: seq<string>, n: string)
  {
    n in g.ids && n !in done && forall e | e in g.edges && e.1 == n :: e.0 in done
  }

  function ReadySet(g: Graph, done: seq<string>): set<string>
  {
    set n | n in g.ids && Ready(g, done, n)
  }

  predicate IsLeast(s: set<string>, leq: (string, string) -> bool, n: string)
  {
    n in s && forall m | m in s :: leq(n, m)
  }

  lemma LeastOfTwo(s: set<string>, leq: (string, string) -> bool, x: string, y: string)
    requires TotalOrderOn(s, leq) && x in s && y in s && IsLeast(s - {x}, leq, y)
    ensures IsLeast(s, leq, if leq(y, x) then y else x)
  {
  }

  lemma {:induction false} LeastExists(s: set<string>, leq: (string, string) -> bool)
    requires s != {} && TotalOrderOn(s, leq)
    ensures exists n :: n in s && IsLeast(s, leq, n)
  {
    var x :| x in s;
    var rest := s - {x};
    if rest == {} {
      assert s == {x};
      assert IsLeast(s, leq, x);
    } else {
      LeastExists(rest, leq);
      var y :| y in rest && IsLeast(rest, leq, y);
      LeastOfTwo(s, leq, x, y);
    }
  }

  /** `ORDER BY ... LIMIT 1`. */
  function Least(s: set<string>, leq: (string, string) -> bool): (n: string)
    requires s != {} && TotalOrderOn(s, leq)
    ensures IsLeast(s, leq, n)
  {
    LeastExists(s, leq);
    var n :| n in s && IsLeast(s, leq, n);
    n
  }

  /** What is left to order after `done`, or the exception when nothing is eligible. */
  function Extend(g: Graph, leq: (string, string) -> bool, done: seq<string>)
    : (r: Result<seq<string>, ScheduleError>)
    requires TotalOrderOn(g.ids, leq)
    decreases |g.ids| - |done|
  {
    if |done| >= |g.ids| then Ok(done)
    else if ReadySet(g, done) == {} then Err(NoCanonicalOrder)
    else Extend(g, leq, done + [Least(ReadySet(g, done), leq)])
  }

  function CanonicalOrder(g: Graph, leq: (string, string) -> bool)
    : Result<seq<string>, ScheduleError>
    requires TotalOrderOn(g.ids, leq)
  {
    Extend(g, leq, [])
  }

  /** The loop itself. */
  method ExecutionOrder(g: Graph, leq: (string, string) -> bool)
    returns (r: Result<seq<string>, ScheduleError>)
    requires TotalOrderOn(g.ids, leq)
    ensures r == CanonicalOrder(g, leq)
  {
    var ordered := [];
    while |ordered| < |g.ids|
      invariant CanonicalOrder(g, leq) == Extend(g, leq, ordered)
    {
      var eligible := ReadySet(g, ordered);
      if eligible == {} { return Err(NoCanonicalOrder); }
      LeastExists(eligible, leq);
      var next :| next in eligible && forall m | m in eligible :: leq(next, m);
      assert IsLeast(eligible, leq, Least(eligible, leq));
      assert next == Least(eligible, leq);
      ordered := ordered + [next];
    }
    r := Ok(ordered);
  }

  // ---------------------------------------------------------------- specification

  /** A permutation of the nodes in which every edge goes forward. */
  ghost predicate Topological(g: Graph, order: seq<string>)
  {
    && Distinct(order)
    && (forall n :: n in order <==> n in g.ids)
    && (forall i, j | 0 <= i < |order| && 0 <= j < |order| && (order[i], order[j]) in g.edges :: i < j)
  }

  ghost predicate IsPath(g: Graph, c: seq<string>)
  {
    |c| > 0 && forall i | 0 <= i < |c| - 1 :: (c[i], c[i + 1]) in g.edges
  }

  ghost predicate IsCycle(g: Graph, c: seq<string>)
  {
    IsPath(g, c) && (c[|c| - 1], c[0]) in g.edges
  }

  ghost predicate Cyclic(g: Graph)
  {
    exists c :: IsCycle(g, c)
  }

  /** `a` is `b`, or is before it at the first place they differ. */
  ghost predicate LexLeq(a: seq<string>, b: seq<string>, leq: (string, string) -> bool)
  {
    a == b || exists i | 0 <= i < |a| && i < |b| ::
      a[..i] == b[..i] && a[i] != b[i] && leq(a[i], b[i])
  }

  /** Every element was the least one eligible when it was taken. */
  ghost predicate Greedy(g: Graph, leq: (string, string) -> bool, xs: seq<string>)
  {
    forall i | 0 <= i < |xs| :: IsLeast(ReadySet(g, xs[..i]), leq, xs[i])
  }

  // ---------------------------------------------------------------- soundness

  lemma GreedyPrefix(g: Graph, leq: (string, string) -> bool, xs: seq<string>, n: string)
    requires Greedy(g, leq, xs) && IsLeast(ReadySet(g, xs), leq, n)
    ensures Greedy(g, leq, xs + [n])
  {
    var ys := xs + [n];
    forall i | 0 <= i < |ys| ensures IsLeast(ReadySet(g, ys[..i]), leq, ys[i]) {
      if i < |xs| { assert ys[..i] == xs[..i]; } else { assert ys[..i] == xs; }
    }
  }

  lemma GreedyDistinct(g: Graph, leq: (string, string) -> bool, xs: seq<string>)
    requires Greedy(g, leq, xs)
    ensures Distinct(xs) && forall n | n in xs :: n in g.ids
  {
  }

  lemma {:induction false} DistinctCardinality(xs: seq<string>, s: set<string>)
    requires Distinct(xs) && forall n | n in xs :: n in s
    ensures |xs| <= |s|
    ensures |xs| == |s| ==> forall n | n in s :: n in xs
    decreases |xs|
  {
    if xs == [] {
      if |s| == 0 { assert s == {}; }
    } else {
      var x, rest := xs[0], xs[1..];
      assert forall n | n in rest :: n in s - {x};
      DistinctCardinality(rest, s - {x});
      assert xs == [x] + rest;
    }
  }

  lemma GreedyForward(g: Graph, leq: (string, string) -> bool, xs: seq<string>)
    requires Greedy(g, leq, xs)
    ensures forall i, j | 0 <= i < |xs| && 0 <= j < |xs| && (xs[i], xs[j]) in g.edges :: i < j
  {
  }

  lemma {:induction false} ExtendSound(g: Graph, leq: (string, string) -> bool, done: seq<string>)
    requires TotalOrderOn(g.ids, leq) && Greedy(g, leq, done) && |done| <= |g.ids|
    ensures Extend(g, leq, done).Ok? ==>
              var v := Extend(g, leq, done).value; Greedy(g, leq, v) && |v| == |g.ids|
    ensures Extend(g, leq, done).Err? ==>
              exists v :: Greedy(g, leq, v) && |v| < |g.ids| && ReadySet(g, v) == {}
    decreases |g.ids| - |done|
  {
    if |done| < |g.ids| && ReadySet(g, done) != {} {
      var n := Least(ReadySet(g, done), leq);
      GreedyPrefix(g, leq, done, n);
      ExtendSound(g, leq, done + [n]);
    }
  }

  // ---------------------------------------------------------------- cycles

  /** In a topological order, each step along a path moves at least one place right. */
  lemma {:induction false} PathMovesRight(g: Graph, order: seq<string>, c: seq<string>) returns (first: nat, last: nat)
    requires Closed(g) && Topological(g, order) && IsPath(g, c) && c[0] in g.ids
    ensures first < |order| && last < |order|
    ensures order[first] == c[0] && order[last] == c[|c| - 1] && first + |c| - 1 <= last
    ensures (c[|c| - 1], c[0]) in g.edges ==> (order[last], order[first]) in g.edges
    decreases |c|
  {
    assert c[0] in order;
    first :| 0 <= first < |order| && order[first] == c[0];
    if |c| == 1 {
      last := first;
    } else {
      assert (c[0], c[1]) in g.edges;
      var tail := c[1..];
      forall i | 0 <= i < |tail| - 1 ensures (tail[i], tail[i + 1]) in g.edges {
        assert (c[i + 1], c[i + 1 + 1]) in g.edges;
      }
      var second;
      second, last := PathMovesRight(g, order, tail);
      assert (order[first], order[second]) in g.edges;
    }
  }

  lemma CycleHasNoOrder(g: Graph, order: seq<string>, c: seq<string>)
    requires Closed(g) && IsCycle(g, c)
    ensures !Topological(g, order)
  {
    assert (c[|c| - 1], c[0]) in g.edges;
    if Topological(g, order) {
      var first, last := PathMovesRight(g, order, c);
    }
  }

  lemma StepBack(g: Graph, c: seq<string>, p: string)
    requires IsPath(g, c) && Distinct(c) && p !in c && (p, c[0]) in g.edges
    ensures IsPath(g, [p] + c) && Distinct([p] + c)
  {
  }

  /** A nonempty set in which every node has a predecessor inside the set contains a cycle:
      walk backwards from any path until a node repeats. */
  lemma {:induction false} BackwardWalkCycles(g: Graph, rest: set<string>, c: seq<string>)
    requires IsPath(g, c) && Distinct(c) && forall n | n in c :: n in rest
    requires forall n | n in rest :: exists p :: p in rest && (p, n) in g.edges
    ensures Cyclic(g)
    decreases |rest| - |c|
  {
    DistinctCardinality(c, rest);
    assert c[0] in rest;
    var p :| p in rest && (p, c[0]) in g.edges;
    if p in c {
      var i :| 0 <= i < |c| && c[i] == p;
      assert IsCycle(g, c[..i + 1]);
    } else {
      StepBack(g, c, p);
      DistinctCardinality([p] + c, rest);
      BackwardWalkCycles(g, rest, [p] + c);
    }
  }

  lemma StuckCycles(g: Graph, done: seq<string>)
    requires Closed(g) && |done| < |g.ids| && Distinct(done) && (forall n | n in done :: n in g.ids)
    requires ReadySet(g, done) == {}
    ensures Cyclic(g)
  {
    var rest := set n | n in g.ids && n !in done;
    forall n | n in rest ensures exists p :: p in rest && (p, n) in g.edges {
      assert n !in ReadySet(g, done);
      var e :| e in g.edges && e.1 == n && e.0 !in done;
      assert e == (e.0, n) && e.0 in rest;
    }
    assert rest != {} by {
      if forall n | n in g.ids :: n in done { SetCoversCardinality(done, g.ids); }
      var n :| n in g.ids && n !in done;
      assert n in rest;
    }
    var n :| n in rest;
    BackwardWalkCycles(g, rest, [n]);
  }

  lemma {:induction false} SetCoversCardinality(xs: seq<string>, s: set<string>)
    requires forall n | n in s :: n in xs
    ensures |s| <= |xs|
    decreases |xs|
  {
    if xs == [] {
      assert s == {};
    } else {
      assert xs == [xs[0]] + xs[1..];
      SetCoversCardinality(xs[1..], s - {xs[0]});
    }
  }

  // ---------------------------------------------------------------- the theorems

  /** The scheduler raises exactly on a cyclic graph, and otherwise returns a topological order. */
  lemma CanonicalOrderCorrect(g: Graph, leq: (string, string) -> bool)
    requires Closed(g) && TotalOrderOn(g.ids, leq)
    ensures CanonicalOrder(g, leq).Err? <==> Cyclic(g)
    ensures CanonicalOrder(g, leq).Ok? ==> Topological(g, CanonicalOrder(g, leq).value)
  {
    var r := CanonicalOrder(g, leq);
    assert Greedy(g, leq, []);
    ExtendSound(g, leq, []);
    if r.Ok? {
      CompleteGreedyIsTopological(g, leq, r.value);
      if Cyclic(g) {
        var c :| IsCycle(g, c);
        CycleHasNoOrder(g, r.value, c);
      }
    } else {
      var v :| Greedy(g, leq, v) && |v| < |g.ids| && ReadySet(g, v) == {};
      GreedyDistinct(g, leq, v);
      StuckCycles(g, v);
    }
  }

  lemma CompleteGreedyIsTopological(g: Graph, leq: (string, string) -> bool, v: seq<string>)
    requires Greedy(g, leq, v) && |v| == |g.ids|
    ensures Topological(g, v)
  {
    GreedyDistinct(g, leq, v);
    GreedyForward(g, leq, v);
    DistinctCardinality(v, g.ids);
  }

  /** The returned order is lexicographically least among all topological orders. */
  lemma CanonicalOrderIsLeast(g: Graph, leq: (string, string) -> bool, t: seq<string>)
    requires Closed(g) && TotalOrderOn(g.ids, leq) && Topological(g, t)
    ensures CanonicalOrder(g, leq).Ok? && LexLeq(CanonicalOrder(g, leq).value, t, leq)
  {
    CanonicalOrderCorrect(g, leq);
    if Cyclic(g) {
      var c :| IsCycle(g, c);
      CycleHasNoOrder(g, t, c);
    }
    assert Greedy(g, leq, []);
    ExtendSound(g, leq, []);
    var v := CanonicalOrder(g, leq).value;
    TopologicalLength(g, t);
    if v != t { GreedyBeatsFrom(g, leq, v, t, 0); }
  }

  lemma TopologicalLength(g: Graph, t: seq<string>)
    requires Topological(g, t)
    ensures |t| == |g.ids|
  {
    DistinctCardinality(t, g.ids);
    SetCoversCardinality(t, g.ids);
  }

  lemma {:induction false} GreedyBeatsFrom(g: Graph, leq: (string, string) -> bool, v: seq<string>, t: seq<string>,
                                             i: nat)
    requires Greedy(g, leq, v) && Closed(g) && Topological(g, t) && |v| == |t| && v != t
    requires i <= |v| && v[..i] == t[..i]
    ensures LexLeq(v, t, leq)
    decreases |v| - i
  {
    assert v[..|v|] == v && t[..|t|] == t;
    if v[i] == t[i] {
      assert v[..i + 1] == v[..i] + [v[i]] && t[..i + 1] == t[..i] + [t[i]];
      GreedyBeatsFrom(g, leq, v, t, i + 1);
    } else {
      TopologicalReady(g, t, i);
      assert IsLeast(ReadySet(g, v[..i]), leq, v[i]);
    }
  }

  /** The next element of any topological order is eligible. */
  lemma TopologicalReady(g: Graph, t: seq<string>, i: nat)
    requires Closed(g) && Topological(g, t) && i < |t|
    ensures t[i] in ReadySet(g, t[..i])
  {
  }

  lemma FirstDifference(a: seq<string>, b: seq<string>, i: nat, j: nat)
    requires i < |a| && i < |b| && a[i] != b[i]
    requires j <= |a| && j <= |b| && a[..j] == b[..j]
    ensures j <= i
  {
  }

  lemma LexAntisymmetric(a: seq<string>, b: seq<string>, s: set<string>, leq: (string, string) -> bool)
    requires TotalOrderOn(s, leq)
    requires (forall n | n in a :: n in s) && (forall n | n in b :: n in s)
    requires LexLeq(a, b, leq) && LexLeq(b, a, leq)
    ensures a == b
  {
    if a != b {
      var i :| 0 <= i < |a| && i < |b| && a[..i] == b[..i] && a[i] != b[i] && leq(a[i], b[i]);
      var j :| 0 <= j < |b| && j < |a| && b[..j] == a[..j] && b[j] != a[j] && leq(b[j], a[j]);
      assert a[i] in a && b[i] in b;
      FirstDifference(a, b, i, j);
      FirstDifference(b, a, j, i);
    }
  }

  /** ... and it is the only one that is, so the order is a function of the graph alone. */
  lemma LeastOrderUnique(g: Graph, leq: (string, string) -> bool, t: seq<string>)
    requires Closed(g) && TotalOrderOn(g.ids, leq) && Topological(g, t)
    requires forall u | Topological(g, u) :: LexLeq(t, u, leq)
    ensures CanonicalOrder(g, leq) == Ok(t)
  {
    CanonicalOrderCorrect(g, leq);
    CanonicalOrderIsLeast(g, leq, t);
    LexAntisymmetric(t, CanonicalOrder(g, leq).value, g.ids, leq);
  }
}
