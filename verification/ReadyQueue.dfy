/** Topological ordering with in-degree counters and a ready queue, on a wired graph, and what is
    left when the queue runs dry. */
module ReadyQueue {
  import opened Wrappers
  import opened Schedule
  import opened Components

  // ---------------------------------------------------------------- wiring

  /** The predecessors of a node that are still to come. */
  function Waiting(g: Graph, done: seq<string>, u: string): set<string>
  {
    set e | e in g.edges && e.1 == u && e.0 !in done :: e.0
  }

  /** Dependant lists without repetition, and the number of dependencies of each node. */
  ghost predicate Wired(g: Graph, dependants: map<string, seq<string>>, degrees: map<string, int>)
  {
    && dependants.Keys == g.ids && degrees.Keys == g.ids
    && (forall u | u in g.ids :: Distinct(dependants[u]) && forall v :: v in dependants[u] <==> (u, v) in g.edges)
    && forall u | u in g.ids :: degrees[u] == |Waiting(g, [], u)|
  }

  lemma WaitingPlus(g: Graph, d: string, x: string, u: string)
    requires (d, x) !in g.edges
    ensures var h := g.(edges := g.edges + {(d, x)});
            |Waiting(h, [], u)| == |Waiting(g, [], u)| + if u == x then 1 else 0
  {
    var h := g.(edges := g.edges + {(d, x)});
    if u == x {
      assert (d, x) in h.edges;
      assert Waiting(h, [], u) == Waiting(g, [], u) + {d};
      assert d !in Waiting(g, [], u);
    } else {
      assert Waiting(h, [], u) == Waiting(g, [], u);
    }
  }

  /** Adding one edge keeps the wiring. */
  lemma AddEdge(g: Graph, dependants: map<string, seq<string>>, degrees: map<string, int>, d: string, x: string)
    requires Wired(g, dependants, degrees) && d in g.ids && x in g.ids && (d, x) !in g.edges
    ensures Wired(g.(edges := g.edges + {(d, x)}), dependants[d := dependants[d] + [x]], degrees[x := degrees[x] + 1])
  {
    hide Waiting;
    var h := g.(edges := g.edges + {(d, x)});
    forall u | u in g.ids ensures (degrees[x := degrees[x] + 1])[u] == |Waiting(h, [], u)| {
      WaitingPlus(g, d, x, u);
    }
    var lists := dependants[d := dependants[d] + [x]];
    assert lists.Keys == g.ids && degrees[x := degrees[x] + 1].Keys == g.ids;
    forall u | u in g.ids ensures Distinct(lists[u]) && forall v :: v in lists[u] <==> (u, v) in h.edges {
      assert Distinct(dependants[u]) && forall v :: v in dependants[u] <==> (u, v) in g.edges;
      if u == d { assert x !in dependants[d]; }
    }
  }

  // ---------------------------------------------------------------- the queue

  ghost predicate Counting(g: Graph, done: seq<string>, degrees: map<string, int>)
  {
    degrees.Keys == g.ids && forall u | u in g.ids :: degrees[u] == |Waiting(g, done, u)|
  }

  lemma ReadyIsZero(g: Graph, done: seq<string>, u: string)
    ensures u in ReadySet(g, done) <==> u in g.ids && u !in done && |Waiting(g, done, u)| == 0
  {
    if u in g.ids && u !in done {
      if e :| e in g.edges && e.1 == u && e.0 !in done {
        assert e.0 in Waiting(g, done, u);
      } else {
        assert Waiting(g, done, u) == {};
      }
    }
  }

  lemma WaitingMinus(g: Graph, done: seq<string>, next: string, u: string)
    requires next !in done
    ensures |Waiting(g, done + [next], u)| == |Waiting(g, done, u)| - if (next, u) in g.edges then 1 else 0
  {
    var before, after := Waiting(g, done, u), Waiting(g, done + [next], u);
    if (next, u) in g.edges {
      var e := (next, u);
      assert e in g.edges && e.1 == u;
      assert next in before && after == before - {next};
    } else {
      assert after == before;
    }
  }

  /** Everything a greedy order has taken, it took after its dependencies. */
  lemma TakenAfterDependencies(g: Graph, leq: (string, string) -> bool, done: seq<string>, u: string, v: string)
    requires Greedy(g, leq, done) && v in done && (u, v) in g.edges
    ensures u in done
  {
  }

  /** A node released by the last taken one had not been taken. */
  lemma ReleasedIsNew(g: Graph, leq: (string, string) -> bool, done: seq<string>, next: string, u: string)
    requires Greedy(g, leq, done) && next in ReadySet(g, done) && (next, u) in g.edges
    ensures u !in done + [next]
  {
  }

  /** Taking a node: its dependants lose a dependency each, and those left with none join the queue. */
  method Release(ghost g: Graph, ghost leq: (string, string) -> bool, ghost done: seq<string>, next: string,
                 dependants: seq<string>, degrees0: map<string, int>, ready0: set<string>)
    returns (degrees: map<string, int>, ready: set<string>)
    requires Closed(g) && Greedy(g, leq, done) && next in ReadySet(g, done) && Counting(g, done, degrees0)
    requires ready0 == ReadySet(g, done) - {next}
    requires Distinct(dependants) && forall v :: v in dependants <==> (next, v) in g.edges
    ensures Counting(g, done + [next], degrees) && ready == ReadySet(g, done + [next])
  {
    hide Waiting, ReadySet, Greedy;
    degrees, ready := degrees0, ready0;
    for j := 0 to |dependants|
      invariant degrees.Keys == g.ids
      invariant forall u | u in g.ids ::
                  degrees[u] == |Waiting(g, done, u)| - if u in dependants[..j] then 1 else 0
      invariant forall u :: u in ready <==> u in ready0 || (u in dependants[..j] && u in g.ids && degrees[u] == 0)
    {
      var u := dependants[j];
      assert u in dependants && (next, u) in g.edges;
      assert u in g.ids;
      assert dependants[..j + 1] == dependants[..j] + [u];
      assert u !in dependants[..j];
      degrees := degrees[u := degrees[u] - 1];
      if degrees[u] == 0 { ready := ready + {u}; }
    }
    assert dependants[..|dependants|] == dependants;
    ReleaseCounts(g, leq, done, next, dependants, degrees, ready0, ready);
  }

  lemma ReleaseCounts(g: Graph, leq: (string, string) -> bool, done: seq<string>, next: string, dependants: seq<string>,
                      degrees: map<string, int>, ready0: set<string>, ready: set<string>)
    requires Closed(g) && Greedy(g, leq, done) && next in ReadySet(g, done) && ready0 == ReadySet(g, done) - {next}
    requires forall v :: v in dependants <==> (next, v) in g.edges
    requires degrees.Keys == g.ids
    requires forall u | u in g.ids :: degrees[u] == |Waiting(g, done, u)| - if u in dependants then 1 else 0
    requires forall u :: u in ready <==> u in ready0 || (u in dependants && u in g.ids && degrees[u] == 0)
    ensures Counting(g, done + [next], degrees) && ready == ReadySet(g, done + [next])
  {
    ReadyIsZero(g, done, next);
    hide Waiting, ReadySet, Greedy;
    forall u | u in g.ids ensures degrees[u] == |Waiting(g, done + [next], u)| {
      WaitingMinus(g, done, next, u);
    }
    forall u ensures u in ready <==> u in ReadySet(g, done + [next]) {
      ReadyIsZero(g, done, u);
      ReadyIsZero(g, done + [next], u);
      if u in g.ids { WaitingMinus(g, done, next, u); }
      if (next, u) in g.edges { ReleasedIsNew(g, leq, done, next, u); }
    }
  }

  /** The queue loop. It takes the same nodes in the same order as the database's repeated search,
      and leaves the counters of what is still waiting. */
  method TakeReady(ghost g: Graph, leq: (string, string) -> bool, dependants: map<string, seq<string>>,
                   degrees0: map<string, int>)
    returns (order: seq<string>, degrees: map<string, int>)
    requires Closed(g) && TotalOrderOn(g.ids, leq) && Wired(g, dependants, degrees0)
    ensures Greedy(g, leq, order) && ReadySet(g, order) == {} && Counting(g, order, degrees)
    ensures CanonicalOrder(g, leq) == if |order| == |g.ids| then Ok(order) else Err(NoCanonicalOrder)
  {
    hide ReadySet, Waiting, Extend, Greedy, TotalOrderOn;
    order, degrees := [], degrees0;
    var ready := set u | u in degrees && degrees[u] == 0;
    forall u ensures u in ready <==> u in ReadySet(g, []) { ReadyIsZero(g, [], u); }
    assert ready == ReadySet(g, []);
    NothingTaken(g, leq);
    while ready != {}
      invariant ready == ReadySet(g, order) && Counting(g, order, degrees)
      invariant Greedy(g, leq, order) && CanonicalOrder(g, leq) == Extend(g, leq, order)
      decreases |g.ids| - |order|
    {
      ReadyInGraph(g, leq, order);
      LeastExists(ready, leq);
      var next :| next in ready && forall m | m in ready :: leq(next, m);
      TakeStep(g, leq, order, next);
      ready := ready - {next};
      degrees, ready := Release(g, leq, order, next, dependants[next], degrees, ready);
      order := order + [next];
    }
    TakeEnd(g, leq, order);
  }

  lemma NothingTaken(g: Graph, leq: (string, string) -> bool)
    ensures Greedy(g, leq, [])
  {
  }

  lemma ReadyInGraph(g: Graph, leq: (string, string) -> bool, done: seq<string>)
    requires TotalOrderOn(g.ids, leq)
    ensures ReadySet(g, done) <= g.ids && TotalOrderOn(ReadySet(g, done), leq)
  {
  }

  /** The node taken is the one the search would select. */
  lemma TakeStep(g: Graph, leq: (string, string) -> bool, done: seq<string>, next: string)
    requires TotalOrderOn(g.ids, leq) && Greedy(g, leq, done) && IsLeast(ReadySet(g, done), leq, next)
    ensures |done| < |g.ids| && Greedy(g, leq, done + [next])
    ensures Extend(g, leq, done) == Extend(g, leq, done + [next])
  {
    hide Greedy, Extend;
    ReadyInGraph(g, leq, done);
    var ready := ReadySet(g, done);
    assert IsLeast(ready, leq, Least(ready, leq));
    assert next == Least(ready, leq);
    ReadyNotDone(g, leq, done, next);
    GreedyPrefix(g, leq, done, next);
    ExtendOnce(g, leq, done);
  }

  lemma ExtendOnce(g: Graph, leq: (string, string) -> bool, done: seq<string>)
    requires TotalOrderOn(g.ids, leq) && |done| < |g.ids|
    ensures Extend(g, leq, done) ==
              if ReadySet(g, done) == {} then Err(NoCanonicalOrder)
              else Extend(g, leq, done + [Least(ReadySet(g, done), leq)])
  {
  }

  lemma TakeEnd(g: Graph, leq: (string, string) -> bool, done: seq<string>)
    requires TotalOrderOn(g.ids, leq) && Greedy(g, leq, done) && ReadySet(g, done) == {}
    ensures Extend(g, leq, done) == if |done| == |g.ids| then Ok(done) else Err(NoCanonicalOrder)
  {
    GreedyBound(g, leq, done);
  }

  lemma GreedyBound(g: Graph, leq: (string, string) -> bool, done: seq<string>)
    requires Greedy(g, leq, done)
    ensures |done| <= |g.ids| && Distinct(done) && forall n | n in done :: n in g.ids
  {
    GreedyDistinct(g, leq, done);
    DistinctCardinality(done, g.ids);
  }

  /** While a node is ready, not every node has been taken. */
  lemma ReadyNotDone(g: Graph, leq: (string, string) -> bool, done: seq<string>, next: string)
    requires Greedy(g, leq, done) && next in ReadySet(g, done)
    ensures |done| < |g.ids|
  {
    GreedyBound(g, leq, done);
    DistinctCardinality(done, g.ids);
  }

  // ---------------------------------------------------------------- what is left

  /** The node reaches one of its own predecessors. */
  ghost predicate OnCycle(g: Graph, c: string)
  {
    exists q :: (q, c) in g.edges && Reaches(g, c, q)
  }

  /** The node is on a cycle or downstream of one. */
  ghost predicate Stuck(g: Graph, u: string)
  {
    exists c :: OnCycle(g, c) && Reaches(g, c, u)
  }

  /** What reaches the i-th taken node was taken by then. */
  lemma TakenBefore(g: Graph, leq: (string, string) -> bool, order: seq<string>, i: nat, a: string)
    requires Greedy(g, leq, order) && i < |order| && Reaches(g, a, order[i])
    ensures a in order[..i + 1]
  {
    var taken := order[..i + 1];
    var past := set v | v in taken;
    assert taken[i] == order[i];
    forall u, v | v in past && (u, v) in g.edges ensures u in past {
      var j :| 0 <= j < i + 1 && taken[j] == v;
      assert order[j] in ReadySet(g, order[..j]);
      var e := (u, v);
      assert e in g.edges && e.1 == v && e.0 in order[..j];
      assert order[..j] == taken[..j];
    }
    ReachedStays(g, past, a, order[i]);
  }

  /** Nothing on a cycle is taken. */
  lemma CycleNotTaken(g: Graph, leq: (string, string) -> bool, order: seq<string>, c: string)
    requires Greedy(g, leq, order) && OnCycle(g, c)
    ensures c !in order
  {
    if i :| 0 <= i < |order| && order[i] == c {
      var q :| (q, c) in g.edges && Reaches(g, c, q);
      assert order[i] in ReadySet(g, order[..i]);
      var e := (q, c);
      assert e in g.edges && e.1 == c && e.0 in order[..i];
      var k :| 0 <= k < i && order[..i][k] == q;
      TakenBefore(g, leq, order, k, c);
      GreedyDistinct(g, leq, order);
    }
  }

  /** A cycle of a graph puts its first node on a cycle. */
  lemma CycleNode(g: Graph, c: seq<string>)
    requires IsCycle(g, c)
    ensures OnCycle(g, c[0])
  {
  }

  function Restrict(g: Graph, s: set<string>): Graph
  {
    Graph(s, set e | e in g.edges && e.0 in s && e.1 in s)
  }

  lemma RestrictReaches(g: Graph, s: set<string>, a: string, b: string)
    requires Reaches(Restrict(g, s), a, b)
    ensures Reaches(g, a, b)
  {
  }

  /** Every node that is not taken has a predecessor that is not taken. */
  lemma LeftHasLeftPredecessor(g: Graph, order: seq<string>, n: string) returns (p: string)
    requires Closed(g) && ReadySet(g, order) == {} && n in g.ids && n !in order
    ensures p in g.ids && p !in order && (p, n) in g.edges
  {
    assert n !in ReadySet(g, order);
    var e :| e in g.edges && e.1 == n && e.0 !in order;
    p := e.0;
    assert e == (p, n);
  }

  /** A cycle inside a part of the graph. */
  lemma RestrictedCycle(g: Graph, s: set<string>) returns (c: string)
    requires Cyclic(Restrict(g, s))
    ensures c in s && OnCycle(g, c)
  {
    var h := Restrict(g, s);
    var p :| IsCycle(h, p);
    assert (p[|p| - 1], p[0]) in h.edges;
    assert IsCycle(g, p);
    c := p[0];
    CycleNode(g, p);
  }

  /** What is left is reached from a cycle: walk back from it among what is left. */
  lemma LeftIsStuck(g: Graph, order: seq<string>, u: string)
    requires Closed(g) && ReadySet(g, order) == {} && u in g.ids && u !in order
    ensures Stuck(g, u)
  {
    hide Reaches, ReadySet, Cyclic;
    var rest := set n | n in g.ids && n !in order && Reaches(g, n, u);
    var h := Restrict(g, rest);
    ReachesSelf(g, u);
    forall n | n in rest ensures exists p :: p in rest && (p, n) in h.edges {
      var p := LeftHasLeftPredecessor(g, order, n);
      ReachesEdge(g, p, n);
      ReachesTransitive(g, p, n, u);
      assert (p, n) in h.edges;
    }
    BackwardWalkCycles(h, rest, [u]);
    var c := RestrictedCycle(g, rest);
  }

  /** When the queue runs dry, exactly the nodes on or downstream of a cycle are left. */
  lemma LeftExactly(g: Graph, leq: (string, string) -> bool, order: seq<string>, u: string)
    requires Closed(g) && Greedy(g, leq, order) && ReadySet(g, order) == {} && u in g.ids
    ensures u !in order <==> Stuck(g, u)
  {
    if u !in order {
      LeftIsStuck(g, order, u);
    } else if Stuck(g, u) {
      var c :| OnCycle(g, c) && Reaches(g, c, u);
      var i :| 0 <= i < |order| && order[i] == u;
      TakenBefore(g, leq, order, i, c);
      CycleNotTaken(g, leq, order, c);
    }
  }

  // ---------------------------------------------------------------- the components of what is left

  /** The nodes that keep a dependency when the queue is dry. */
  lemma CountersExactly(g: Graph, leq: (string, string) -> bool, order: seq<string>, degrees: map<string, int>,
                        u: string)
    requires Closed(g) && Greedy(g, leq, order) && ReadySet(g, order) == {} && Counting(g, order, degrees) && u in g.ids
    ensures degrees[u] != 0 <==> Stuck(g, u)
  {
    LeftExactly(g, leq, order, u);
    ReadyIsZero(g, order, u);
    if u in order {
      forall e | e in g.edges && e.1 == u ensures e.0 in order {
        assert e == (e.0, u);
        TakenAfterDependencies(g, leq, order, e.0, u);
      }
      assert Waiting(g, order, u) == {};
    }
  }

  ghost function StuckNodes(g: Graph): set<string>
  {
    set u | u in g.ids && Stuck(g, u)
  }

  lemma StuckSpreads(g: Graph, u: string, v: string)
    requires Closed(g) && u in StuckNodes(g) && (u, v) in g.edges
    ensures v in StuckNodes(g)
  {
    var c :| OnCycle(g, c) && Reaches(g, c, u);
    ReachesEdge(g, u, v);
    ReachesTransitive(g, c, u, v);
  }

  /** Among what is left, reachability is that of the whole graph. */
  lemma RestrictKeepsReach(g: Graph, a: string, b: string)
    requires Closed(g) && a in StuckNodes(g)
    ensures Reaches(Restrict(g, StuckNodes(g)), a, b) <==> Reaches(g, a, b)
    ensures Reaches(g, a, b) ==> b in StuckNodes(g)
  {
    var s := StuckNodes(g);
    var h := Restrict(g, s);
    forall u, v | u in s && (u, v) in g.edges ensures v in s { StuckSpreads(g, u, v); }
    if Reaches(h, a, b) { RestrictReaches(g, s, a, b); }
    if Reaches(g, a, b) {
      ReachesStays(g, s, a, b);
      var p :| IsPath(g, p) && p[0] == a && p[|p| - 1] == b;
      forall i | 0 <= i < |p| - 1 ensures (p[i], p[i + 1]) in h.edges {
        PathStays(g, s, p, i);
        PathStays(g, s, p, i + 1);
      }
      assert IsPath(h, p);
    }
  }

  lemma ComponentRestricted(g: Graph, a: string)
    requires Closed(g) && a in StuckNodes(g)
    ensures ComponentOf(Restrict(g, StuckNodes(g)), a) == ComponentOf(g, a)
  {
    hide Reaches, Stuck;
    forall b ensures b in ComponentOf(Restrict(g, StuckNodes(g)), a) <==> b in ComponentOf(g, a) {
      RestrictKeepsReach(g, a, b);
      if b in StuckNodes(g) { RestrictKeepsReach(g, b, a); }
    }
  }

  ghost predicate NoSelfEdge(g: Graph)
  {
    forall e | e in g.edges :: e.0 != e.1
  }

  /** The node before the last of a path to it. */
  lemma LastStep(g: Graph, a: string, b: string) returns (q: string)
    requires Reaches(g, a, b) && a != b
    ensures (q, b) in g.edges && Reaches(g, a, q)
  {
    var p :| IsPath(g, p) && p[0] == a && p[|p| - 1] == b;
    q := p[|p| - 2];
    assert (p[|p| - 2], p[|p| - 2 + 1]) in g.edges;
    var shorter := p[..|p| - 1];
    assert IsPath(g, shorter) && shorter[0] == a && shorter[|shorter| - 1] == q;
  }

  /** Without self-edges, a node is on a cycle exactly when its component has another node. */
  lemma OnCycleExactly(g: Graph, a: string)
    requires Closed(g) && NoSelfEdge(g) && a in g.ids
    ensures OnCycle(g, a) <==> |ComponentOf(g, a)| > 1
  {
    hide Reaches;
    ReachesSelf(g, a);
    var c := ComponentOf(g, a);
    assert a in c;
    if OnCycle(g, a) {
      var q :| (q, a) in g.edges && Reaches(g, a, q);
      ReachesEdge(g, q, a);
      var e := (q, a);
      assert e in g.edges;
      assert q in c && {a, q} <= c;
      SubsetCardinality({a, q}, c);
    } else if |c| > 1 {
      assert c != {a};
      var b :| b in c && b != a;
      var q := LastStep(g, b, a);
      ReachesTransitive(g, a, b, q);
    }
  }
}
