/** The rows that store a declared set of children: nodes with the ordinals of a given order, an edge for
    each dependency, and one observation of each child. What the readiness specification asks of nodes and
    observations then holds. */
module DeclaredRows {
  import opened Wrappers
  import opened Json
  import opened Ledger
  import opened Authority
  import opened ManifestGraph
  import opened ManifestRun
  import opened Schedule
  import opened Readiness
  import opened ReadinessSpec
  import Cohort
  import C = ChildPayload

  // ---------------------------------------------------------------- the rows of a declaration

  function Position(order: seq<string>, id: string): (i: nat)
    ensures id in order ==> i < |order| && order[i] == id
  {
    if order == [] || order[0] == id then 0 else 1 + Position(order[1..], id)
  }

  function NodeFor(h: string -> string, k: nat, order: seq<string>, c: C.Child): NodeRow
  {
    NodeRow(k, c.id, c.typ, c.role, c.hint, c.instrument, c.source, c.target, h(C.CanonicalText(c)),
            Some(Position(order, c.id)))
  }

  function NodesFor(h: string -> string, k: nat, order: seq<string>, cs: seq<C.Child>): set<NodeRow>
  {
    set i | 0 <= i < |cs| :: NodeFor(h, k, order, cs[i])
  }

  function EdgesFor(k: nat, cs: seq<C.Child>): set<EdgeRow>
  {
    set i, j | 0 <= i < |cs| && 0 <= j < |cs[i].deps| :: EdgeRow(k, cs[i].deps[j], cs[i].id)
  }

  function ObservationFor(h: string -> string, c: C.Child, sequence: nat): ObservationRow
  {
    ObservationRow(1, sequence, c.id, 0, c.id, h(C.CanonicalText(c)), C.ToJson(c))
  }

  function ObservationsFor(h: string -> string, cs: seq<C.Child>): seq<ObservationRow>
  {
    seq(|cs|, i requires 0 <= i < |cs| => ObservationFor(h, cs[i], i + 1))
  }

  /** The children form a graph without repetitions or dangling dependencies, in this order. */
  ghost predicate Ordered(cs: seq<C.Child>, order: seq<string>)
  {
    && Cohort.DistinctIds(cs) && Topological(Cohort.Dependencies(cs), order)
    && forall i | 0 <= i < |cs| ::
         && Distinct(cs[i].deps) && cs[i].id !in cs[i].deps
         && forall d | d in cs[i].deps :: d in Cohort.Dependencies(cs).ids
  }

  /** The order hints fit their integer column. */
  ghost predicate HintsFit(cs: seq<C.Child>)
  {
    forall i | 0 <= i < |cs| :: cs[i].hint.Some? ==> Fits(cs[i].hint.value)
  }

  // ---------------------------------------------------------------- they can be stored

  lemma OrderedAt(cs: seq<C.Child>, order: seq<string>, i: nat)
    requires Ordered(cs, order) && i < |cs|
    ensures Position(order, cs[i].id) < |order| && order[Position(order, cs[i].id)] == cs[i].id
  {
    assert cs[i].id in Cohort.Dependencies(cs).ids;
    assert cs[i].id in order;
  }

  lemma OrderLength(cs: seq<C.Child>, order: seq<string>)
    requires Ordered(cs, order)
    ensures |order| == |cs|
  {
    hide Topological;
    DistinctCount(cs);
    TopologicalLength(Cohort.Dependencies(cs), order);
    assert Cohort.Dependencies(cs).ids == ChildIds(cs);
  }

  lemma NodesFit(h: string -> string, k: nat, order: seq<string>, cs: seq<C.Child>)
    requires Ordered(cs, order) && HintsFit(cs) && Fits(|cs|) && forall i | 0 <= i < |cs| :: C.Valid(cs[i])
    ensures NodesStorable(k, NodesFor(h, k, order, cs))
  {
    hide C.CanonicalText, Position, Ordered, Cohort.DistinctIds;
    OrderLength(cs, order);
    forall i | 0 <= i < |cs| ensures NodeChecks(NodeFor(h, k, order, cs[i])) { OrderedAt(cs, order, i); }
    var nodes := NodesFor(h, k, order, cs);
    forall a, b | a in nodes && b in nodes && a != b
      ensures a.id != b.id && (a.ordinal.Some? ==> a.ordinal != b.ordinal)
    {
      var i :| 0 <= i < |cs| && a == NodeFor(h, k, order, cs[i]);
      var j :| 0 <= j < |cs| && b == NodeFor(h, k, order, cs[j]);
      DifferentIds(cs, order, i, j);
      OrderedAt(cs, order, i);
      OrderedAt(cs, order, j);
    }
  }

  lemma DifferentIds(cs: seq<C.Child>, order: seq<string>, i: nat, j: nat)
    requires Ordered(cs, order) && i < |cs| && j < |cs|
    ensures cs[i].id == cs[j].id ==> i == j
  {
    if i < j { assert cs[i].id != cs[j].id; }
    if j < i { assert cs[j].id != cs[i].id; }
  }

  lemma DeclaredNode(h: string -> string, k: nat, order: seq<string>, cs: seq<C.Child>, id: string)
    requires id in Cohort.Dependencies(cs).ids
    ensures exists n | n in NodesFor(h, k, order, cs) :: n.id == id
  {
    hide C.CanonicalText, Position;
    var i :| 0 <= i < |cs| && cs[i].id == id;
    assert NodeFor(h, k, order, cs[i]) in NodesFor(h, k, order, cs);
  }

  lemma EdgesFit(h: string -> string, k: nat, order: seq<string>, cs: seq<C.Child>)
    requires Ordered(cs, order)
    ensures EdgesStorable(k, NodesFor(h, k, order, cs), EdgesFor(k, cs))
  {
    hide NodesFor;
    forall e | e in EdgesFor(k, cs)
      ensures && e.manifest == k && e.predecessor != e.successor
              && (exists n | n in NodesFor(h, k, order, cs) :: n.id == e.predecessor)
              && (exists n | n in NodesFor(h, k, order, cs) :: n.id == e.successor)
    {
      var i, j :| 0 <= i < |cs| && 0 <= j < |cs[i].deps| && e == EdgeRow(k, cs[i].deps[j], cs[i].id);
      assert cs[i].deps[j] in cs[i].deps;
      DeclaredNode(h, k, order, cs, e.predecessor);
      DeclaredNode(h, k, order, cs, e.successor);
    }
  }

  lemma {:induction false} DependencyRows(k: nat, id: string, deps: seq<string>)
    ensures |set j | 0 <= j < |deps| :: EdgeRow(k, deps[j], id)| <= |deps|
    decreases |deps|
  {
    var rows := set j | 0 <= j < |deps| :: EdgeRow(k, deps[j], id);
    if deps == [] {
      assert rows == {};
    } else {
      var init := deps[..|deps| - 1];
      var before := set j | 0 <= j < |init| :: EdgeRow(k, init[j], id);
      DependencyRows(k, id, init);
      assert rows == before + {EdgeRow(k, deps[|deps| - 1], id)};
    }
  }

  /** There are no more edges than dependencies. */
  lemma {:induction false} EdgeRows(k: nat, cs: seq<C.Child>)
    ensures |EdgesFor(k, cs)| <= DependencyCount(cs)
    decreases |cs|
  {
    if cs == [] {
      assert EdgesFor(k, cs) == {};
    } else {
      var init, last := cs[..|cs| - 1], cs[|cs| - 1];
      EdgeRows(k, init);
      DependencyRows(k, last.id, last.deps);
      assert EdgesFor(k, cs) == EdgesFor(k, init) + set j | 0 <= j < |last.deps| :: EdgeRow(k, last.deps[j], last.id);
    }
  }

  // ---------------------------------------------------------------- what they mean once stored

  /** The tables hold the declaration under manifest `k`, with every child observed once. */
  ghost predicate Holds(t: Tables, k: nat, h: string -> string, order: seq<string>, cs: seq<C.Child>)
  {
    && t.nodes == NodesFor(h, k, order, cs) && t.edges == EdgesFor(k, cs) && t.observations == ObservationsFor(h, cs)
    && k in t.manifests && t.manifests[k].opening == 0
  }

  lemma NodesHeld(t: Tables, k: nat, h: string -> string, order: seq<string>, cs: seq<C.Child>)
    requires Holds(t, k, h, order, cs) && Cohort.DistinctIds(cs)
    ensures NodesOf(t, k) == t.nodes && EdgesOf(t, k) == t.edges && |t.nodes| == |cs|
  {
    hide C.CanonicalText, Position;
    assert forall n | n in t.nodes :: n.manifest == k;
    forall a, b | a in t.nodes && b in t.nodes && a.id == b.id ensures a == b {
      var i :| 0 <= i < |cs| && a == NodeFor(h, k, order, cs[i]);
      var j :| 0 <= j < |cs| && b == NodeFor(h, k, order, cs[j]);
      assert i == j;
    }
    IdCount(t.nodes);
    DistinctCount(cs);
    forall id ensures id in Ids(t.nodes) <==> id in ChildIds(cs) {
      if id in ChildIds(cs) {
        var i :| 0 <= i < |cs| && cs[i].id == id;
        assert NodeFor(h, k, order, cs[i]) in t.nodes;
      }
    }
    assert Ids(t.nodes) == ChildIds(cs);
  }

  lemma PlanHeld(t: Tables, k: nat, h: string -> string, order: seq<string>, cs: seq<C.Child>)
    requires Holds(t, k, h, order, cs) && Ordered(cs, order)
    ensures NodePlan(NodesOf(t, k), order)
  {
    hide C.CanonicalText, Position, Topological;
    NodesHeld(t, k, h, order, cs);
    OrderLength(cs, order);
    forall n | n in t.nodes ensures n.ordinal.Some? && n.ordinal.value < |order| && order[n.ordinal.value] == n.id {
      var i :| 0 <= i < |cs| && n == NodeFor(h, k, order, cs[i]);
      OrderedAt(cs, order, i);
    }
    forall p | 0 <= p < |order| ensures exists n :: n in NodesOf(t, k) && n.ordinal == Some(p) {
      var i := PlannedChild(cs, order, p);
      assert NodeFor(h, k, order, cs[i]) in t.nodes;
    }
  }

  lemma PlannedChild(cs: seq<C.Child>, order: seq<string>, p: nat) returns (i: nat)
    requires Ordered(cs, order) && p < |order|
    ensures i < |cs| && Position(order, cs[i].id) == p
  {
    assert order[p] in order;
    i :| i < |cs| && cs[i].id == order[p];
    OrderedAt(cs, order, i);
  }

  lemma {:induction false} DistinctCounts(xs: seq<string>)
    requires Distinct(xs)
    ensures forall x :: multiset(xs)[x] == if x in xs then 1 else 0
    decreases |xs|
  {
    if xs != [] {
      assert xs == [xs[0]] + xs[1..];
      DistinctCounts(xs[1..]);
      assert xs[0] !in xs[1..];
    }
  }

  lemma SameElements(xs: seq<string>, s: set<string>)
    requires Distinct(xs) && forall x :: x in xs <==> x in s
    ensures multiset(xs) == multiset(SortedKeys(s))
  {
    DistinctCounts(xs);
    SortedCount(SortedKeys(s));
    forall x ensures multiset(xs)[x] == multiset(SortedKeys(s))[x] {
      assert x in multiset(SortedKeys(s)) <==> x in SortedKeys(s);
    }
  }

  lemma PredecessorsHeld(t: Tables, k: nat, cs: seq<C.Child>, order: seq<string>, i: nat)
    requires t.edges == EdgesFor(k, cs) && Ordered(cs, order) && i < |cs|
    ensures forall x :: x in cs[i].deps <==> x in Predecessors(t, k, cs[i].id)
  {
    forall x ensures x in cs[i].deps <==> x in Predecessors(t, k, cs[i].id) {
      if x in cs[i].deps {
        var j :| 0 <= j < |cs[i].deps| && cs[i].deps[j] == x;
        assert EdgeRow(k, x, cs[i].id) in t.edges;
      }
      if x in Predecessors(t, k, cs[i].id) {
        var e :| e in t.edges && e.manifest == k && e.successor == cs[i].id && e.predecessor == x;
        var a, b :| 0 <= a < |cs| && 0 <= b < |cs[a].deps| && e == EdgeRow(k, cs[a].deps[b], cs[a].id);
        DifferentIds(cs, order, a, i);
      }
    }
  }

  lemma ChildHeld(t: Tables, k: nat, h: string -> string, order: seq<string>, cs: seq<C.Child>, i: nat)
    requires Holds(t, k, h, order, cs) && Ordered(cs, order) && i < |cs|
    ensures NodeFor(h, k, order, cs[i]) in NodesOf(t, k) && ChildIsNode(t, h, cs[i], NodeFor(h, k, order, cs[i]))
  {
    hide C.CanonicalText, Position, SortedKeys, Predecessors, ObservationsFor;
    PredecessorsHeld(t, k, cs, order, i);
    SameElements(cs[i].deps, Predecessors(t, k, cs[i].id));
  }

  lemma ChildrenHeld(t: Tables, k: nat, h: string -> string, order: seq<string>, cs: seq<C.Child>)
    requires Holds(t, k, h, order, cs) && Ordered(cs, order)
    ensures ChildrenAreNodes(t, k, h, cs)
  {
    hide Holds, ChildIsNode, NodeFor;
    NodesHeld(t, k, h, order, cs);
    forall i | 0 <= i < |cs| ensures HasItsNode(t, k, h, cs[i]) { ChildHeld(t, k, h, order, cs, i); }
  }

  lemma CountedHeld(t: Tables, k: nat, h: string -> string, order: seq<string>, cs: seq<C.Child>, i: nat)
    requires Inv(t) && Holds(t, k, h, order, cs) && i < |cs|
    ensures Counted(t, 1, k, |cs|, i)
  {
    hide Inv, Authorized, NodesFor, EdgesFor, C.CanonicalText, C.ToJson;
    RetentionWidens(t, k, cs[i].id, i + 1);
  }

  lemma LatestHeld(t: Tables, k: nat, h: string -> string, e: Evaluation, order: seq<string>, cs: seq<C.Child>, i: nat)
    requires Inv(t) && Holds(t, k, h, order, cs) && Ordered(cs, order)
    requires e.event == 1 && e.through == |cs| && i < |cs|
    ensures IsLatest(t, k, e, cs[i].id, i)
  {
    hide Chained, NodesFor, EdgesFor, Counted, C.CanonicalText, C.ToJson, Ordered;
    CountedHeld(t, k, h, order, cs, i);
    forall j | 0 <= j < |t.observations| && t.observations[j].transaction == cs[i].id ensures j == i {
      DifferentIds(cs, order, j, i);
    }
  }

  lemma RowHeld(t: Tables, k: nat, h: string -> string, order: seq<string>, cs: seq<C.Child>, i: nat)
    requires Holds(t, k, h, order, cs) && Ordered(cs, order) && i < |cs| && C.Valid(cs[i])
    ensures |t.observations| == |cs| && t.observations[i].transaction == cs[i].id
    ensures C.Accept(t.observations[i].payload) == Ok(cs[i]) && t.observations[i].payload == C.ToJson(cs[i])
    ensures ObservationIsNode(t, h, t.observations[i], NodeFor(h, k, order, cs[i]))
    ensures HasNode(t, k, cs[i].id)
  {
    hide NodesFor, EdgesFor, C.CanonicalText, C.ToJson, C.Accept, C.Valid, NodeChild, Position, Ordered, NodesOf;
    ChildHeld(t, k, h, order, cs, i);
    C.AcceptComplete(cs[i]);
    FoundNode(t, k, h, cs[i], NodeFor(h, k, order, cs[i]));
  }

  lemma FoundNode(t: Tables, k: nat, h: string -> string, c: C.Child, n: NodeRow)
    requires n in NodesOf(t, k) && ChildIsNode(t, h, c, n)
    ensures HasNode(t, k, c.id)
  {
  }

  lemma NodeHeld(t: Tables, k: nat, h: string -> string, e: Evaluation, order: seq<string>, cs: seq<C.Child>, i: nat)
    requires Inv(t) && Holds(t, k, h, order, cs) && Ordered(cs, order) && e.event == 1 && e.through == |cs|
    requires i < |cs| && C.Valid(cs[i])
    ensures Chained(t) && NodeObserved(t, k, h, e, NodeFor(h, k, order, cs[i]))
  {
    hide Chained, Ordered, Holds, C.Accept, C.Valid, C.ToJson, IsLatest, ObservationIsNode, NodeFor, HasNode;
    LatestHeld(t, k, h, e, order, cs, i);
    RowHeld(t, k, h, order, cs, i);
    SameId(h, k, order, cs[i]);
  }

  lemma NodeDeclared(t: Tables, k: nat, h: string -> string, order: seq<string>, cs: seq<C.Child>, n: NodeRow)
    requires Holds(t, k, h, order, cs) && n in NodesOf(t, k)
    ensures exists i: nat :: i < |cs| && n == NodeFor(h, k, order, cs[i])
  {
    hide NodeFor, EdgesFor, ObservationsFor;
  }

  lemma ObservationsHeld(t: Tables, k: nat, h: string -> string, e: Evaluation, order: seq<string>, cs: seq<C.Child>)
    requires Inv(t) && Holds(t, k, h, order, cs) && Ordered(cs, order) && e.event == 1 && e.through == |cs|
    requires forall i | 0 <= i < |cs| :: C.Valid(cs[i])
    ensures CountedSpec(t, k, h, e)
  {
    hide Chained, Ordered, Holds, C.Accept, C.Valid, C.ToJson, Counted, NodeFor, HasNode, NodeObserved, NodesOf;
    forall n | n in NodesOf(t, k) ensures NodeObserved(t, k, h, e, n) {
      NodeDeclared(t, k, h, order, cs, n);
      var i: nat :| i < |cs| && n == NodeFor(h, k, order, cs[i]);
      NodeHeld(t, k, h, e, order, cs, i);
    }
    if cs != [] { RowHeld(t, k, h, order, cs, 0); } else { NoRows(t, k, h, order); }
    forall i | 0 <= i < |t.observations|
      ensures C.Valid(cs[i]) && t.observations[i].payload == C.ToJson(cs[i])
      ensures HasNode(t, k, t.observations[i].transaction)
    {
      RowHeld(t, k, h, order, cs, i);
    }
  }

  lemma NoRows(t: Tables, k: nat, h: string -> string, order: seq<string>)
    requires Holds(t, k, h, order, [])
    ensures t.observations == []
  {
  }

  lemma SameId(h: string -> string, k: nat, order: seq<string>, c: C.Child)
    ensures NodeFor(h, k, order, c).id == c.id
  {
  }
}
