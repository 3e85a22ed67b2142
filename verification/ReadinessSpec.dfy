/** What an accepted READY evaluation means, row by row, and the proof that the counting trigger
    accepts exactly that. */
module ReadinessSpec {
  import opened Wrappers
  import opened Json
  import opened Ledger
  import opened Authority
  import opened ManifestGraph
  import opened Schedule
  import opened Readiness
  import Cohort
  import C = ChildPayload
  import M = ManifestPayload
  import Timestamp
  import Sorting

  /** The hypothesis on the content hash: no two texts share one. */
  ghost predicate CollisionFree(h: string -> string)
  {
    forall a, b | h(a) == h(b) :: a == b
  }

  // ---------------------------------------------------------------- the specification

  /** The ordinals are a bijection of the nodes onto 0..n-1, and the plan lists the ids by ordinal. */
  ghost predicate NodePlan(nodes: set<NodeRow>, plan: seq<string>)
  {
    && |plan| == |nodes|
    && (forall n | n in nodes :: n.ordinal.Some? && n.ordinal.value < |plan| && plan[n.ordinal.value] == n.id)
    && (forall i | 0 <= i < |plan| :: exists n :: n in nodes && n.ordinal == Some(i))
  }

  /** The plan is the least topological order of the stored graph. */
  ghost predicate LeastPlan(t: Tables, k: nat, plan: seq<string>)
  {
    && Topological(GraphOf(t, k), plan)
    && forall u | Topological(GraphOf(t, k), u) :: LexLeq(plan, u, Before(NodesOf(t, k)))
  }

  /** A payload child is the node of its id: every column, its dependencies one for one, and the hash. */
  ghost predicate ChildIsNode(t: Tables, h: string -> string, c: C.Child, n: NodeRow)
  {
    n.id == c.id && C.SameUpToOrder(c, NodeChild(t, n)) && n.hash == h(C.CanonicalText(c))
  }

  ghost predicate HasItsNode(t: Tables, k: nat, h: string -> string, c: C.Child)
  {
    exists n :: n in NodesOf(t, k) && ChildIsNode(t, h, c, n)
  }

  ghost predicate ChildrenAreNodes(t: Tables, k: nat, h: string -> string, cs: seq<C.Child>)
  {
    && |cs| == |NodesOf(t, k)| && Cohort.DistinctIds(cs)
    && forall i | 0 <= i < |cs| :: HasItsNode(t, k, h, cs[i])
  }

  /** The latest counted observation of the node carries the node's hash and the node's content. */
  ghost predicate NodeObserved(t: Tables, k: nat, h: string -> string, e: Evaluation, n: NodeRow)
    requires Chained(t)
  {
    exists i: nat :: IsLatest(t, k, e, n.id, i) && ObservationIsNode(t, h, t.observations[i], n)
  }

  ghost predicate ObservationIsNode(t: Tables, h: string -> string, o: ObservationRow, n: NodeRow)
  {
    && o.hash == n.hash && C.Accept(o.payload).Ok?
    && C.SameUpToOrder(C.Accept(o.payload).value, NodeChild(t, n))
  }

  ghost predicate NothingUnexpected(t: Tables, k: nat, e: Evaluation)
    requires Chained(t)
  {
    forall i | 0 <= i < |t.observations| && Counted(t, e.event, k, e.through, i) ::
      HasNode(t, k, t.observations[i].transaction)
  }

  /** The plan: the ids of the manifest's nodes, in least topological order. */
  ghost predicate PlanSpec(t: Tables, e: Evaluation, k: nat, plan: seq<string>)
    requires k in t.manifests
  {
    && plan != [] && t.manifests[k].nodeCount == |plan| && e.ordered == C.TextsJson(plan)
    && NodePlan(NodesOf(t, k), plan) && LeastPlan(t, k, plan)
  }

  /** The manifest that an event row and a manifest row describe, but for scope and children. */
  function RowManifest(event: EventRow, row: ManifestRow, scope: Option<M.Scope>, children: seq<C.Child>): M.Manifest
  {
    M.Manifest(row.completion, event.eventId, row.typ, event.group, event.parent, event.portfolio, row.version,
               M.Evidence(Timestamp.Rendered(row.observedAt), row.contentHash, row.recordId, row.revision, row.system),
               scope, children)
  }

  /** The payload: its identity columns are the event's and the row's, its children the nodes. */
  ghost predicate PayloadSpec(t: Tables, k: nat, h: string -> string, m: M.Manifest)
    requires Inv(t) && k in t.manifests
  {
    && m == RowManifest(t.events[t.manifests[k].event], t.manifests[k], m.scope, m.children)
    && ChildrenAreNodes(t, k, h, m.children)
    && t.manifests[k].edgeCount == |EdgesOf(t, k)|
  }

  /** The evidence: a complete manifest, and the canonical hashes of manifest and plan. */
  ghost predicate EvidenceSpec(t: Tables, k: nat, h: string -> string, e: Evaluation, plan: seq<string>, text: string)
    requires k in t.manifests
  {
    && t.manifests[k].completion && t.manifests[k].hash == h(text)
    && e.manifestHash == Some(t.manifests[k].hash)
    && e.planHash == Some(h(Print(PlanDocument(t.manifests[k].hash, plan))))
  }

  /** Not stale: the evaluation is of the event's counters as they are, and of its current version, if any. */
  ghost predicate CurrentSpec(t: Tables, k: nat, e: Evaluation)
    requires k in t.manifests
  {
    && e.event in t.events
    && var event := t.events[e.event];
    && e.through == event.lastSequence && e.stateVersion == event.stateVersion
    && event.current in {None, Some(t.manifests[k].version)}
  }

  /** Every counted row holds the JSON of a valid child. */
  ghost predicate PayloadsSpec(t: Tables, k: nat, e: Evaluation)
    requires Chained(t)
  {
    forall i | 0 <= i < |t.observations| && Counted(t, e.event, k, e.through, i) ::
      exists c :: C.Valid(c) && t.observations[i].payload == C.ToJson(c)
  }

  /** The row counts for version `k`: it is one of the event's up to its last sequence, after the opening of
      the earliest version from which on every version declares its transaction. */
  ghost predicate Counts(t: Tables, k: nat, event: nat, i: nat)
    requires Chained(t) && k in t.manifests && event in t.events && i < |t.observations|
  {
    var o := t.observations[i];
    && o.event == event && o.sequence <= t.events[event].lastSequence
    && AfterOpening(t, k, o.transaction, o.sequence)
  }

  /** A counted row has the node's content, and no counted row of the node has a higher epoch or, within
      the epoch, a higher sequence. */
  ghost predicate NodeSeen(t: Tables, k: nat, h: string -> string, event: nat, n: NodeRow)
    requires Chained(t) && k in t.manifests && event in t.events
  {
    var rows := t.observations;
    exists i: nat | i < |rows| ::
      && Counts(t, k, event, i) && rows[i].transaction == n.id && ObservationIsNode(t, h, rows[i], n)
      && forall j: nat | j < |rows| && Counts(t, k, event, j) && rows[j].transaction == n.id ::
           rows[j].epoch < rows[i].epoch || (rows[j].epoch == rows[i].epoch && rows[j].sequence <= rows[i].sequence)
  }

  /** The observations: each node is what was last observed, and nothing else was observed. */
  ghost predicate ObservationSpec(t: Tables, k: nat, h: string -> string, event: nat)
    requires Chained(t) && k in t.manifests && event in t.events
  {
    && (forall n | n in NodesOf(t, k) :: NodeSeen(t, k, h, event, n))
    && (forall i: nat | i < |t.observations| && Counts(t, k, event, i) ::
          && (exists c :: C.Valid(c) && t.observations[i].payload == C.ToJson(c))
          && exists n :: n in NodesOf(t, k) && n.id == t.observations[i].transaction)
  }

  /** The same in terms of the trigger's query. */
  ghost predicate CountedSpec(t: Tables, k: nat, h: string -> string, e: Evaluation)
    requires Chained(t)
  {
    && PayloadsSpec(t, k, e)
    && (forall n | n in NodesOf(t, k) :: NodeObserved(t, k, h, e, n))
    && NothingUnexpected(t, k, e)
  }

  /** The manifest: its payload is read as `m`, and matches the rows and the evidence. */
  ghost predicate ManifestSpec(t: Tables, k: nat, h: string -> string, e: Evaluation, plan: seq<string>, m: M.Manifest)
    requires Inv(t) && k in t.manifests
  {
    var payload := t.manifests[k].payload;
    && M.AcceptForward(payload, true) == Ok(m) && PayloadSpec(t, k, h, m)
    && EvidenceSpec(t, k, h, e, plan, M.TextForward(payload, true).value)
  }

  /** The event's state: the evaluation is not stale, and the observations are the nodes. */
  ghost predicate StateSpec(t: Tables, k: nat, h: string -> string, e: Evaluation)
    requires Chained(t) && k in t.manifests
  {
    CurrentSpec(t, k, e) && ObservationSpec(t, k, h, e.event)
  }

  ghost predicate Spec(t: Tables, h: string -> string, e: Evaluation, plan: seq<string>, m: M.Manifest)
    requires Inv(t)
  {
    && e.status == "READY" && e.findings == [] && e.stateVersion >= 1
    && e.manifest.Some? && e.manifest.value in t.manifests && t.manifests[e.manifest.value].event == e.event
    && var k := e.manifest.value;
    && PlanSpec(t, e, k, plan)
    && ManifestSpec(t, k, h, e, plan, m)
    && StateSpec(t, k, h, e)
  }

  // ---------------------------------------------------------------- plan

  /** The set is the interval of `n` numbers from `base` on. */
  ghost predicate Spans(s: set<nat>, base: nat, n: nat)
  {
    forall x: nat :: x in s <==> base <= x < base + n
  }

  /** At most n numbers are below n, and n of them are all of them. */
  lemma {:induction false} FullRange(s: set<nat>, n: nat)
    requires forall x | x in s :: x < n
    ensures |s| <= n
    ensures |s| == n ==> Spans(s, 0, n)
    decreases n
  {
    if n == 0 {
      assert s == {};
    } else if n - 1 in s {
      var rest := s - {n - 1};
      FullRange(rest, n - 1);
      assert forall x: nat :: x in s <==> x == n - 1 || x in rest;
    } else {
      FullRange(s, n - 1);
    }
  }

  lemma {:induction false} OrdinalCount(nodes: set<NodeRow>)
    requires OrdinalsUnique(nodes) && forall n | n in nodes :: n.ordinal.Some?
    ensures |Ordinals(nodes)| == |nodes|
    decreases |nodes|
  {
    if nodes == {} {
      assert Ordinals(nodes) == {};
    } else {
      var a :| a in nodes;
      var rest := nodes - {a};
      OrdinalCount(rest);
      assert Ordinals(nodes) == Ordinals(rest) + {a.ordinal.value};
      assert a.ordinal.value !in Ordinals(rest);
    }
  }

  lemma ResolvedAll(nodes: set<NodeRow>)
    requires |Resolved(nodes)| == |nodes|
    ensures forall n | n in nodes :: n.ordinal.Some?
  {
    assert Resolved(nodes) <= nodes;
    assert |nodes - Resolved(nodes)| == 0;
    assert nodes - Resolved(nodes) == {};
    forall n | n in nodes ensures n.ordinal.Some? {
      assert n !in nodes - Resolved(nodes);
    }
  }

  lemma {:induction false} ExpectedOrderAt(nodes: set<NodeRow>, base: nat)
    requires OrdinalsUnique(nodes) && (forall n | n in nodes :: n.ordinal.Some?)
    requires Spans(Ordinals(nodes), base, |nodes|)
    ensures |ExpectedOrder(nodes)| == |nodes|
    ensures forall n | n in nodes ::
              base <= n.ordinal.value < base + |nodes| && ExpectedOrder(nodes)[n.ordinal.value - base] == n.id
    decreases |nodes|
  {
    if nodes == {} {
      assert Resolved(nodes) == {} && Ids(nodes) == {};
    } else {
      var a :| a in nodes;
      assert a in Resolved(nodes);
      FirstExists(nodes);
      var first :| FirstByOrdinal(nodes, first) && ExpectedOrder(nodes) == [first.id] + ExpectedOrder(nodes - {first});
      var rest := nodes - {first};
      FirstOrdinal(nodes, base, first);
      RestOrdinals(nodes, base, first);
      ExpectedOrderAt(rest, base + 1);
      forall n | n in nodes
        ensures base <= n.ordinal.value < base + |nodes| && ExpectedOrder(nodes)[n.ordinal.value - base] == n.id
      {
        if n != first { assert n in rest; }
      }
    }
  }

  lemma FirstOrdinal(nodes: set<NodeRow>, base: nat, first: NodeRow)
    requires Spans(Ordinals(nodes), base, |nodes|) && FirstByOrdinal(nodes, first)
    ensures first.ordinal.value == base
  {
    assert first.ordinal.value in Ordinals(nodes);
    assert base in Ordinals(nodes);
    var n :| n in nodes && n.ordinal.Some? && n.ordinal.value == base;
  }

  lemma RestOrdinals(nodes: set<NodeRow>, base: nat, first: NodeRow)
    requires OrdinalsUnique(nodes) && (forall n | n in nodes :: n.ordinal.Some?)
    requires Spans(Ordinals(nodes), base, |nodes|) && first in nodes && first.ordinal.value == base
    ensures Spans(Ordinals(nodes - {first}), base + 1, |nodes| - 1)
  {
    var rest := nodes - {first};
    forall x: nat ensures x in Ordinals(rest) <==> base + 1 <= x < base + |nodes| {
      if x in Ordinals(rest) {
        assert x in Ordinals(nodes) && x != base;
      }
      if base + 1 <= x < base + |nodes| {
        assert x in Ordinals(nodes);
        var n :| n in nodes && n.ordinal.Some? && n.ordinal.value == x;
        assert n in rest;
      }
    }
  }

  lemma StoredOrdinalsUnique(t: Tables, k: nat)
    requires Inv(t)
    ensures OrdinalsUnique(NodesOf(t, k))
  {
  }

  /** Counting proves the bijection: n distinct ordinals between 0 and n - 1 are all of them. */
  lemma CountsGivePlan(nodes: set<NodeRow>)
    requires OrdinalsUnique(nodes) && |nodes| != 0 && |Resolved(nodes)| == |nodes|
    requires MinimumIs(Ordinals(nodes), 0) && MaximumIs(Ordinals(nodes), |nodes| - 1)
    ensures NodePlan(nodes, ExpectedOrder(nodes))
  {
    ResolvedAll(nodes);
    OrdinalCount(nodes);
    FullRange(Ordinals(nodes), |nodes|);
    ExpectedOrderAt(nodes, 0);
    forall i | 0 <= i < |nodes| ensures exists n :: n in nodes && n.ordinal == Some(i) {
      assert i in Ordinals(nodes);
      var n :| n in nodes && n.ordinal.Some? && n.ordinal.value == i;
      assert n.ordinal == Some(i);
    }
  }

  lemma PlanSpans(nodes: set<NodeRow>, plan: seq<string>)
    requires NodePlan(nodes, plan)
    ensures Resolved(nodes) == nodes && Spans(Ordinals(nodes), 0, |nodes|)
  {
    forall x: nat | x < |nodes| ensures x in Ordinals(nodes) {
      var a :| a in nodes && a.ordinal == Some(x);
    }
  }

  lemma SpanEnds(s: set<nat>, n: nat)
    requires n > 0 && Spans(s, 0, n)
    ensures MinimumIs(s, 0) && MaximumIs(s, n - 1)
  {
  }

  lemma PlanIsExpected(nodes: set<NodeRow>, plan: seq<string>)
    requires OrdinalsUnique(nodes) && NodePlan(nodes, plan)
    ensures ExpectedOrder(nodes) == plan
  {
    hide ExpectedOrder, Spans;
    PlanSpans(nodes, plan);
    ExpectedOrderAt(nodes, 0);
    forall i | 0 <= i < |plan| ensures ExpectedOrder(nodes)[i] == plan[i] {
      var a :| a in nodes && a.ordinal == Some(i);
    }
  }

  lemma PlanGivesCounts(nodes: set<NodeRow>, plan: seq<string>)
    requires OrdinalsUnique(nodes) && plan != [] && NodePlan(nodes, plan)
    ensures |nodes| != 0 && |Resolved(nodes)| == |nodes|
    ensures MinimumIs(Ordinals(nodes), 0) && MaximumIs(Ordinals(nodes), |nodes| - 1)
    ensures ExpectedOrder(nodes) == plan
  {
    PlanSpans(nodes, plan);
    SpanEnds(Ordinals(nodes), |nodes|);
    PlanIsExpected(nodes, plan);
  }

  /** Being the canonical order and being the least topological order are the same thing. */
  lemma CanonicalExactly(t: Tables, k: nat)
    requires Inv(t)
    ensures PlanIsCanonical(t, k) <==> LeastPlan(t, k, ExpectedOrder(NodesOf(t, k)))
  {
    StoredGraph(t, k);
    var g, leq, plan := GraphOf(t, k), Before(NodesOf(t, k)), ExpectedOrder(NodesOf(t, k));
    CanonicalOrderCorrect(g, leq);
    if PlanIsCanonical(t, k) {
      forall u | Topological(g, u) ensures LexLeq(plan, u, leq) { CanonicalOrderIsLeast(g, leq, u); }
    }
    if LeastPlan(t, k, plan) { LeastOrderUnique(g, leq, plan); }
  }

  /** The separate edge-direction count is then always zero. */
  lemma NoInvalidEdges(t: Tables, k: nat, plan: seq<string>)
    requires NodePlan(NodesOf(t, k), plan) && Topological(GraphOf(t, k), plan)
    ensures InvalidEdges(t, k) == {}
  {
  }

  // ---------------------------------------------------------------- children and nodes

  lemma ChildIdsStep(cs: seq<C.Child>)
    requires cs != []
    ensures ChildIds(cs) == ChildIds(cs[..|cs| - 1]) + {cs[|cs| - 1].id}
  {
  }

  lemma DistinctStep(cs: seq<C.Child>)
    requires cs != []
    ensures Cohort.DistinctIds(cs) <==>
            Cohort.DistinctIds(cs[..|cs| - 1]) && cs[|cs| - 1].id !in ChildIds(cs[..|cs| - 1])
  {
  }

  lemma {:induction false} DistinctCount(cs: seq<C.Child>)
    ensures |ChildIds(cs)| <= |cs|
    ensures |ChildIds(cs)| == |cs| <==> Cohort.DistinctIds(cs)
    decreases |cs|
  {
    if cs == [] {
      assert ChildIds(cs) == {};
    } else {
      DistinctCount(cs[..|cs| - 1]);
      ChildIdsStep(cs);
      DistinctStep(cs);
    }
  }

  /** Equal hashes of two texts mean equal content; the trigger compares both texts with the node hash. */
  lemma MatchExactly(t: Tables, k: nat, h: string -> string, c: C.Child)
    requires CollisionFree(h)
    ensures ChildMatches(t, k, h, c) <==> HasItsNode(t, k, h, c)
  {
    forall n: NodeRow ensures h(C.CanonicalText(c)) == n.hash && h(C.CanonicalText(NodeChild(t, n))) == n.hash
                              <==> C.SameUpToOrder(c, NodeChild(t, n)) && n.hash == h(C.CanonicalText(c))
    {
      C.TextAgreesExactly(c, NodeChild(t, n));
    }
  }

  lemma AllMatchExactly(t: Tables, k: nat, h: string -> string, cs: seq<C.Child>)
    requires CollisionFree(h)
    ensures |MismatchedChildren(t, k, h, cs)| == 0 <==> forall i | 0 <= i < |cs| :: HasItsNode(t, k, h, cs[i])
  {
    forall i | 0 <= i < |cs| ensures ChildMatches(t, k, h, cs[i]) <==> HasItsNode(t, k, h, cs[i]) {
      MatchExactly(t, k, h, cs[i]);
    }
    var bad := MismatchedChildren(t, k, h, cs);
    assert |bad| == 0 <==> bad == {};
    forall i: nat | i < |cs| ensures i in bad <==> !HasItsNode(t, k, h, cs[i]) { }
  }

  lemma {:induction false} IdCount(nodes: set<NodeRow>)
    requires IdsUnique(nodes)
    ensures |Ids(nodes)| == |nodes|
    decreases |nodes|
  {
    if nodes == {} {
      assert Ids(nodes) == {};
    } else {
      var a :| a in nodes;
      var rest := nodes - {a};
      IdCount(rest);
      assert Ids(nodes) == Ids(rest) + {a.id} && a.id !in Ids(rest);
    }
  }

  lemma ChildIdsAreNodeIds(t: Tables, k: nat, h: string -> string, cs: seq<C.Child>)
    requires forall i | 0 <= i < |cs| :: HasItsNode(t, k, h, cs[i])
    ensures ChildIds(cs) <= Ids(NodesOf(t, k))
  {
  }

  lemma SubsetFull(a: set<string>, b: set<string>)
    requires a <= b && |a| == |b|
    ensures a == b
  {
    assert |b - a| == |b| - |a|;
    assert b - a == {};
  }

  /** Same number, distinct, and each child has a node: the children name exactly the nodes. */
  lemma SameIds(t: Tables, k: nat, h: string -> string, cs: seq<C.Child>)
    requires Inv(t) && ChildrenAreNodes(t, k, h, cs)
    ensures ChildIds(cs) == Ids(NodesOf(t, k))
  {
    StoredGraph(t, k);
    DistinctCount(cs);
    IdCount(NodesOf(t, k));
    ChildIdsAreNodeIds(t, k, h, cs);
    SubsetFull(ChildIds(cs), Ids(NodesOf(t, k)));
  }

  /** A child's dependencies are the stored predecessors, without repetition. */
  lemma DependenciesArePredecessors(t: Tables, h: string -> string, c: C.Child, n: NodeRow)
    requires ChildIsNode(t, h, c, n)
    ensures forall x :: x in c.deps <==> x in Predecessors(t, n.manifest, n.id)
    ensures |c.deps| == |Predecessors(t, n.manifest, n.id)|
    ensures forall i, j :: 0 <= i < j < |c.deps| ==> c.deps[i] != c.deps[j]
  {
    var ps := Predecessors(t, n.manifest, n.id);
    var sorted := SortedKeys(ps);
    assert multiset(c.deps) == multiset(sorted);
    forall x ensures x in c.deps <==> x in ps {
      assert x in c.deps <==> x in multiset(c.deps);
      assert x in sorted <==> x in multiset(sorted);
    }
    SortedKeysSize(ps);
    assert |c.deps| == |multiset(c.deps)| == |multiset(sorted)| == |sorted|;
    SortedCount(sorted);
    forall i, j | 0 <= i < j < |c.deps| ensures c.deps[i] != c.deps[j] {
      Sorting.TwiceCounted(c.deps, i, j);
      assert multiset(sorted)[c.deps[i]] <= 1;
    }
  }

  lemma {:induction false} SortedKeysSize(s: set<string>)
    ensures |SortedKeys(s)| == |s|
    decreases |s|
  {
    var r := SortedKeys(s);
    if s == {} {
    } else {
      assert r != [];
      var k := r[0];
      assert k in r;
      assert r == [k] + SortedKeys(s - {k});
      SortedKeysSize(s - {k});
    }
  }

  lemma {:induction false} SortedCount(ks: seq<string>)
    requires StrictlyOrdered(ks)
    ensures forall x :: multiset(ks)[x] <= 1
    decreases |ks|
  {
    if ks != [] {
      assert ks == [ks[0]] + ks[1..];
      SortedCount(ks[1..]);
      assert ks[0] !in ks[1..];
    }
  }

  // ---------------------------------------------------------------- edges

  /** The stored edges into one node, and into a set of nodes. */
  function EdgesInto(t: Tables, k: nat, ids: set<string>): set<EdgeRow>
  {
    set e | e in t.edges && e.manifest == k && e.successor in ids
  }

  lemma {:induction false} EdgesIntoOne(edges: set<EdgeRow>, preds: set<string>, k: nat, id: string)
    requires edges == set p | p in preds :: EdgeRow(k, p, id)
    ensures |edges| == |preds|
    decreases |preds|
  {
    if preds != {} {
      var p :| p in preds;
      var rest := set q | q in preds - {p} :: EdgeRow(k, q, id);
      EdgesIntoOne(rest, preds - {p}, k, id);
      assert edges == rest + {EdgeRow(k, p, id)};
      assert EdgeRow(k, p, id) !in rest;
    }
  }

  lemma EdgesIntoNode(t: Tables, k: nat, id: string)
    ensures |EdgesInto(t, k, {id})| == |Predecessors(t, k, id)|
  {
    var preds := Predecessors(t, k, id);
    var edges := EdgesInto(t, k, {id});
    assert edges == set p | p in preds :: EdgeRow(k, p, id) by {
      forall e ensures e in edges <==> e in (set p | p in preds :: EdgeRow(k, p, id)) {
        if e in edges { assert e == EdgeRow(k, e.predecessor, id) && e.predecessor in preds; }
      }
    }
    EdgesIntoOne(edges, preds, k, id);
  }

  /** Counting payload dependencies child by child counts the stored edges into those children. */
  lemma {:induction false} DependencyCountIs(t: Tables, k: nat, h: string -> string, cs: seq<C.Child>)
    requires Cohort.DistinctIds(cs) && forall i | 0 <= i < |cs| :: HasItsNode(t, k, h, cs[i])
    ensures DependencyCount(cs) == |EdgesInto(t, k, ChildIds(cs))|
    decreases |cs|
  {
    if cs == [] {
      assert EdgesInto(t, k, ChildIds(cs)) == {};
    } else {
      var rest, last := cs[..|cs| - 1], cs[|cs| - 1];
      forall i | 0 <= i < |rest| ensures HasItsNode(t, k, h, rest[i]) { assert HasItsNode(t, k, h, cs[i]); }
      DependencyCountIs(t, k, h, rest);
      ChildIdsStep(cs);
      DistinctStep(cs);
      assert HasItsNode(t, k, h, cs[|cs| - 1]);
      var n :| n in NodesOf(t, k) && ChildIsNode(t, h, last, n);
      DependenciesArePredecessors(t, h, last, n);
      EdgesIntoNode(t, k, last.id);
      EdgesIntoSplit(t, k, ChildIds(rest), last.id);
    }
  }

  lemma EdgesIntoSplit(t: Tables, k: nat, ids: set<string>, id: string)
    requires id !in ids
    ensures |EdgesInto(t, k, ids + {id})| == |EdgesInto(t, k, ids)| + |EdgesInto(t, k, {id})|
  {
    assert EdgesInto(t, k, ids + {id}) == EdgesInto(t, k, ids) + EdgesInto(t, k, {id});
    assert EdgesInto(t, k, ids) * EdgesInto(t, k, {id}) == {};
  }

  lemma AllEdgesInto(t: Tables, k: nat, ids: set<string>)
    requires Closed(GraphOf(t, k)) && GraphOf(t, k).ids <= ids
    ensures EdgesInto(t, k, ids) == EdgesOf(t, k)
  {
    forall e | e in EdgesOf(t, k) ensures e.successor in ids {
      assert (e.predecessor, e.successor) in GraphOf(t, k).edges;
    }
  }

  lemma PayloadDependencyCount(t: Tables, k: nat, h: string -> string, cs: seq<C.Child>)
    requires Inv(t) && ChildrenAreNodes(t, k, h, cs)
    ensures DependencyCount(cs) == |EdgesOf(t, k)|
  {
    SameIds(t, k, h, cs);
    StoredGraph(t, k);
    DependencyCountIs(t, k, h, cs);
    AllEdgesInto(t, k, ChildIds(cs));
  }

  lemma NoMismatchedDependencies(t: Tables, k: nat, h: string -> string, cs: seq<C.Child>)
    requires forall i | 0 <= i < |cs| :: HasItsNode(t, k, h, cs[i])
    ensures MismatchedDependencies(t, k, cs) == {}
  {
    forall i: nat, j: nat | i < |cs| && j < |cs[i].deps| ensures EdgeRow(k, cs[i].deps[j], cs[i].id) in t.edges {
      assert HasItsNode(t, k, h, cs[i]);
      DependencyIsEdge(t, k, h, cs[i], cs[i].deps[j]);
    }
  }

  lemma DependencyIsEdge(t: Tables, k: nat, h: string -> string, c: C.Child, d: string)
    requires HasItsNode(t, k, h, c) && d in c.deps
    ensures EdgeRow(k, d, c.id) in t.edges
  {
    var n :| n in NodesOf(t, k) && ChildIsNode(t, h, c, n);
    DependenciesArePredecessors(t, h, c, n);
    assert d in Predecessors(t, k, c.id);
    var e :| e in t.edges && e.manifest == k && e.successor == c.id && e.predecessor == d;
    assert e == EdgeRow(k, d, c.id);
  }

  // ---------------------------------------------------------------- observations

  /** Every stored node hash is the hash of the node's own content. */
  ghost predicate NodeHashes(t: Tables, k: nat, h: string -> string)
  {
    forall n | n in NodesOf(t, k) :: n.hash == h(C.CanonicalText(NodeChild(t, n)))
  }

  lemma NodeHashIs(t: Tables, h: string -> string, c: C.Child, n: NodeRow)
    requires ChildIsNode(t, h, c, n)
    ensures n.hash == h(C.CanonicalText(NodeChild(t, n)))
  {
    hide C.CanonicalText, NodeChild, C.SameUpToOrder;
    C.TextAgreesExactly(c, NodeChild(t, n));
  }

  lemma ItsChild(t: Tables, k: nat, h: string -> string, cs: seq<C.Child>, n: NodeRow) returns (c: C.Child)
    requires Inv(t) && ChildrenAreNodes(t, k, h, cs) && n in NodesOf(t, k)
    ensures c in cs && ChildIsNode(t, h, c, n)
  {
    hide C.CanonicalText, NodeChild, C.SameUpToOrder, Inv;
    SameIds(t, k, h, cs);
    StoredGraph(t, k);
    assert n.id in Ids(NodesOf(t, k));
    var i :| 0 <= i < |cs| && cs[i].id == n.id;
    assert HasItsNode(t, k, h, cs[i]);
    var m :| m in NodesOf(t, k) && ChildIsNode(t, h, cs[i], m);
    assert m == n;
    c := cs[i];
  }

  lemma NodeHashesHold(t: Tables, k: nat, h: string -> string, cs: seq<C.Child>)
    requires Inv(t) && ChildrenAreNodes(t, k, h, cs)
    ensures NodeHashes(t, k, h)
  {
    hide C.CanonicalText, NodeChild, Inv, ChildrenAreNodes, ChildIsNode;
    forall n | n in NodesOf(t, k) ensures n.hash == h(C.CanonicalText(NodeChild(t, n))) {
      var c := ItsChild(t, k, h, cs, n);
      NodeHashIs(t, h, c, n);
    }
  }

  lemma RowMatchesExactly(t: Tables, h: string -> string, o: ObservationRow, n: NodeRow)
    requires CollisionFree(h) && n.hash == h(C.CanonicalText(NodeChild(t, n)))
    ensures RowMatches(o, h, n.hash) <==> ObservationIsNode(t, h, o, n)
  {
    if C.Accept(o.payload).Ok? { C.TextAgreesExactly(C.Accept(o.payload).value, NodeChild(t, n)); }
  }

  /** The node has a latest counted observation that matches its hash, as the trigger tests it. */
  ghost predicate NodeMatched(t: Tables, k: nat, h: string -> string, e: Evaluation, n: NodeRow)
    requires Chained(t)
  {
    exists i: nat | i < |t.observations| :: IsLatest(t, k, e, n.id, i) && RowMatches(t.observations[i], h, n.hash)
  }

  lemma NodeMatchedExactly(t: Tables, k: nat, h: string -> string, e: Evaluation, n: NodeRow)
    requires Inv(t) && CollisionFree(h) && n.hash == h(C.CanonicalText(NodeChild(t, n)))
    ensures NodeMatched(t, k, h, e, n) <==> NodeObserved(t, k, h, e, n)
  {
    forall i | 0 <= i < |t.observations|
      ensures RowMatches(t.observations[i], h, n.hash) <==> ObservationIsNode(t, h, t.observations[i], n)
    {
      RowMatchesExactly(t, h, t.observations[i], n);
    }
  }

  lemma MismatchedNodesExactly(t: Tables, k: nat, h: string -> string, e: Evaluation)
    requires Inv(t) && CollisionFree(h) && NodeHashes(t, k, h)
    ensures |MismatchedNodes(t, k, h, e)| == 0 <==> forall n | n in NodesOf(t, k) :: NodeObserved(t, k, h, e, n)
  {
    var bad := MismatchedNodes(t, k, h, e);
    assert |bad| == 0 <==> bad == {};
    forall n | n in NodesOf(t, k) ensures n in bad <==> !NodeObserved(t, k, h, e, n) {
      NodeMatchedExactly(t, k, h, e, n);
    }
  }

  lemma ObservedNodesAll(t: Tables, k: nat, h: string -> string, e: Evaluation)
    requires Inv(t) && forall n | n in NodesOf(t, k) :: NodeObserved(t, k, h, e, n)
    ensures ObservedNodes(t, k, e) == NodesOf(t, k)
  {
  }

  /** Testing the latest row of each transaction is testing every counted row. */
  lemma UnexpectedExactly(t: Tables, k: nat, e: Evaluation)
    requires Inv(t)
    ensures |UnexpectedObservations(t, k, e)| == 0 <==> NothingUnexpected(t, k, e)
  {
    var bad := UnexpectedObservations(t, k, e);
    assert |bad| == 0 <==> bad == {};
    if bad == {} {
      forall j | 0 <= j < |t.observations| && Counted(t, e.event, k, e.through, j)
        ensures HasNode(t, k, t.observations[j].transaction)
      {
        var tx := t.observations[j].transaction;
        var i := LatestCountedExists(t, e.event, k, e.through, tx, j);
        assert i !in bad && t.observations[i].transaction == tx && IsLatest(t, k, e, tx, i);
      }
    }
  }

  /** A payload is accepted exactly when it is the JSON of a valid child. */
  lemma PayloadsExactly(t: Tables, k: nat, e: Evaluation)
    requires Inv(t)
    ensures CountedPayloadsAccepted(t, k, e) <==> PayloadsSpec(t, k, e)
  {
    hide C.Accept, C.Valid, C.ToJson, Inv, Counted;
    forall i | 0 <= i < |t.observations|
      ensures C.Accept(t.observations[i].payload).Ok? <==>
                exists c :: C.Valid(c) && t.observations[i].payload == C.ToJson(c)
    {
      var p := t.observations[i].payload;
      if C.Accept(p).Ok? { C.AcceptSound(p); }
      if c :| C.Valid(c) && p == C.ToJson(c) { C.AcceptComplete(c); }
    }
  }

  /** The trigger's three-valued staleness test. */
  lemma CurrentExactly(t: Tables, k: nat, e: Evaluation)
    requires Inv(t) && k in t.manifests && t.manifests[k].event == e.event
    ensures e.event in t.events && (CountersMatch(t, k, e) <==> CurrentSpec(t, k, e))
  {
  }

  lemma ObservationsExactly(t: Tables, k: nat, h: string -> string, e: Evaluation)
    requires Inv(t) && CollisionFree(h) && k in t.manifests && NodeHashes(t, k, h)
    requires t.manifests[k].nodeCount == |NodesOf(t, k)|
    ensures ObservationsMatch(t, k, h, e) <==> CountedSpec(t, k, h, e)
  {
    hide PayloadsSpec, CountedPayloadsAccepted;
    PayloadsExactly(t, k, e);
    MismatchedNodesExactly(t, k, h, e);
    UnexpectedExactly(t, k, e);
    if forall n | n in NodesOf(t, k) :: NodeObserved(t, k, h, e, n) { ObservedNodesAll(t, k, h, e); }
  }

  lemma CountsExactly(t: Tables, k: nat, e: Evaluation, i: nat)
    requires Inv(t) && k in t.manifests && CurrentSpec(t, k, e) && i < |t.observations|
    ensures Counted(t, e.event, k, e.through, i) <==> Counts(t, k, e.event, i)
  {
    hide Authorized, AfterOpening;
    AuthorizedMeans(t, k, t.observations[i].transaction, t.observations[i].sequence);
  }

  lemma SeenExactly(t: Tables, k: nat, h: string -> string, e: Evaluation, n: NodeRow)
    requires Inv(t) && k in t.manifests && CurrentSpec(t, k, e)
    ensures NodeObserved(t, k, h, e, n) <==> NodeSeen(t, k, h, e.event, n)
  {
    hide Chained, Counted, Counts, ObservationIsNode;
    forall i: nat | i < |t.observations|
      ensures Counted(t, e.event, k, e.through, i) <==> Counts(t, k, e.event, i)
    {
      CountsExactly(t, k, e, i);
    }
  }

  lemma CountedSpecExactly(t: Tables, k: nat, h: string -> string, e: Evaluation)
    requires Inv(t) && k in t.manifests && CurrentSpec(t, k, e)
    ensures CountedSpec(t, k, h, e) <==> ObservationSpec(t, k, h, e.event)
  {
    hide Chained, Counted, Counts, NodeObserved, NodeSeen, C.Valid, C.ToJson;
    forall n | n in NodesOf(t, k) ensures NodeObserved(t, k, h, e, n) <==> NodeSeen(t, k, h, e.event, n) {
      SeenExactly(t, k, h, e, n);
    }
    forall i: nat | i < |t.observations|
      ensures Counted(t, e.event, k, e.through, i) <==> Counts(t, k, e.event, i)
    {
      CountsExactly(t, k, e, i);
    }
    forall id ensures HasNode(t, k, id) <==> exists n :: n in NodesOf(t, k) && n.id == id { }
  }

  // ---------------------------------------------------------------- the theorem

  lemma PlanFromTrigger(t: Tables, e: Evaluation, k: nat)
    requires Inv(t) && e.manifest == Some(k) && PlanMatchesNodes(t, e) && PlanIsCanonical(t, k)
    ensures PlanSpec(t, e, k, ExpectedOrder(NodesOf(t, k)))
  {
    hide Inv, PlanIsCanonical, LeastPlan, ExpectedOrder, C.TextsJson;
    StoredOrdinalsUnique(t, k);
    CanonicalExactly(t, k);
    CountsGivePlan(NodesOf(t, k));
  }

  lemma PlanToTrigger(t: Tables, e: Evaluation, k: nat, plan: seq<string>)
    requires Inv(t) && e.manifest == Some(k) && k in t.manifests && t.manifests[k].event == e.event
    requires PlanSpec(t, e, k, plan)
    ensures PlanMatchesNodes(t, e) && PlanIsCanonical(t, k) && plan == ExpectedOrder(NodesOf(t, k))
    ensures t.manifests[k].nodeCount == |NodesOf(t, k)| && InvalidEdges(t, k) == {}
    ensures e.ordered.Arr? && e.ordered.items != []
  {
    hide Inv, PlanIsCanonical, ExpectedOrder;
    StoredOrdinalsUnique(t, k);
    CanonicalExactly(t, k);
    PlanGivesCounts(NodesOf(t, k), plan);
    NoInvalidEdges(t, k, plan);
  }

  lemma PayloadExactly(t: Tables, k: nat, h: string -> string, m: M.Manifest)
    requires Inv(t) && CollisionFree(h) && k in t.manifests && t.manifests[k].nodeCount == |NodesOf(t, k)|
    requires InvalidEdges(t, k) == {}
    ensures EdgesMatch(t, k) && PayloadMatches(t, k, h, m) <==> PayloadSpec(t, k, h, m)
    ensures PayloadSpec(t, k, h, m) ==> NodeHashes(t, k, h)
  {
    hide Timestamp.Rendered;
    DistinctCount(m.children);
    AllMatchExactly(t, k, h, m.children);
    if ChildrenAreNodes(t, k, h, m.children) {
      PayloadDependencyCount(t, k, h, m.children);
      NoMismatchedDependencies(t, k, h, m.children);
      NodeHashesHold(t, k, h, m.children);
    }
  }

  lemma EvidenceExactly(t: Tables, k: nat, h: string -> string, e: Evaluation, plan: seq<string>, text: string)
    requires k in t.manifests && plan == ExpectedOrder(NodesOf(t, k))
    ensures HashesMatch(t, k, h, e, text) && e.manifestHash.Some? && e.planHash.Some?
            <==> EvidenceSpec(t, k, h, e, plan, text)
  {
  }

  lemma ReadySound(t: Tables, h: string -> string, e: Evaluation) returns (plan: seq<string>, m: M.Manifest)
    requires Inv(t) && CollisionFree(h) && e.status == "READY" && Accepted(t, h, e)
    ensures Spec(t, h, e, plan, m)
  {
    hide Inv, CollisionFree, M.AcceptForward, M.TextForward, PlanIsCanonical, ExpectedOrder, NodesOf;
    hide EdgesMatch, PayloadMatches, HashesMatch, ObservationsMatch;
    hide PlanSpec, PayloadSpec, EvidenceSpec, ObservationSpec, CountedSpec, CountersMatch, CurrentSpec;
    var k := e.manifest.value;
    CurrentExactly(t, k, e);
    M.TextWhenAccepted(t.manifests[k].payload, true);
    plan := ExpectedOrder(NodesOf(t, k));
    m := M.AcceptForward(t.manifests[k].payload, true).value;
    PlanFromTrigger(t, e, k);
    PlanToTrigger(t, e, k, plan);
    PayloadExactly(t, k, h, m);
    EvidenceExactly(t, k, h, e, plan, M.TextForward(t.manifests[k].payload, true).value);
    ObservationsExactly(t, k, h, e);
    CountedSpecExactly(t, k, h, e);
  }

  lemma ReadyComplete(t: Tables, h: string -> string, e: Evaluation, plan: seq<string>, m: M.Manifest)
    requires Inv(t) && CollisionFree(h) && Spec(t, h, e, plan, m)
    ensures e.status == "READY" && Accepted(t, h, e)
  {
    hide Inv, CollisionFree, M.AcceptForward, M.TextForward, ExpectedOrder, NodesOf;
    hide PlanMatchesNodes, PlanIsCanonical, EdgesMatch, PayloadMatches, HashesMatch, ObservationsMatch;
    hide PlanSpec, PayloadSpec, EvidenceSpec, ObservationSpec, CountedSpec, CountersMatch, CurrentSpec;
    var k := e.manifest.value;
    CurrentExactly(t, k, e);
    M.TextWhenAccepted(t.manifests[k].payload, true);
    PlanToTrigger(t, e, k, plan);
    PayloadExactly(t, k, h, m);
    EvidenceExactly(t, k, h, e, plan, M.TextForward(t.manifests[k].payload, true).value);
    CountedSpecExactly(t, k, h, e);
    ObservationsExactly(t, k, h, e);
  }

  /** The counting trigger and the checks accept a READY evaluation exactly when the row-by-row
      specification holds for some plan and manifest. */
  lemma ReadyExactly(t: Tables, h: string -> string, e: Evaluation)
    requires Inv(t) && CollisionFree(h)
    ensures e.status == "READY" && Accepted(t, h, e) <==> exists plan, m :: Spec(t, h, e, plan, m)
  {
    hide *;
    if e.status == "READY" && Accepted(t, h, e) { var plan, m := ReadySound(t, h, e); }
    if plan, m :| Spec(t, h, e, plan, m) { ReadyComplete(t, h, e, plan, m); }
  }
}
