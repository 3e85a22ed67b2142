/** The application's event-graph resolver: structural findings, then a ready queue with in-degree
    counters in place of the database's repeated search. */
module EventGraph {
  import opened Wrappers
  import opened Schedule
  import opened Components
  import opened ReadyQueue
  import Json
  import Text

  datatype Node = Node(id: string, deps: seq<string>, fingerprint: string, key: seq<string>)

  datatype Finding =
    | EmptyGraph
    | DuplicateNodeId(id: string)
    | ConflictingDefinition(id: string)
    | DuplicateEdge(id: string, deps: set<string>)
    | SelfDependency(id: string)
    | MissingDependency(id: string, deps: set<string>)
    | DependencyCycle(ids: set<string>)
    | BlockedByCycle(id: string, deps: set<string>)

  // ---------------------------------------------------------------- the queue's order

  /** Tuples of texts compare column by column. */
  predicate TupleLeq(a: seq<string>, b: seq<string>)
  {
    if a == [] then true
    else if b == [] then false
    else if a[0] != b[0] then Text.Leq(a[0], b[0])
    else TupleLeq(a[1..], b[1..])
  }

  /** The first column that differs decides; without one, the shorter tuple is smaller. */
  ghost predicate TupleSmallerAt(a: seq<string>, b: seq<string>, i: nat)
  {
    i < |a| && i < |b| && a[..i] == b[..i] && a[i] != b[i] && Text.Leq(a[i], b[i])
  }

  lemma {:induction false} TupleLeqExactly(a: seq<string>, b: seq<string>)
    ensures TupleLeq(a, b) <==> a <= b || exists i: nat :: TupleSmallerAt(a, b, i)
    decreases |a|
  {
    if a != [] && b != [] {
      if a[0] != b[0] {
        if Text.Leq(a[0], b[0]) { assert TupleSmallerAt(a, b, 0); }
        if i: nat :| i > 0 && TupleSmallerAt(a, b, i) { DifferFirst(a, b, i); }
      } else {
        TupleLeqExactly(a[1..], b[1..]);
        assert a == [a[0]] + a[1..] && b == [b[0]] + b[1..];
        if i: nat :| TupleSmallerAt(a[1..], b[1..], i) {
          assert a[..i + 1] == [a[0]] + a[1..][..i] && b[..i + 1] == [b[0]] + b[1..][..i];
          assert TupleSmallerAt(a, b, i + 1);
        }
        if i: nat :| TupleSmallerAt(a, b, i) {
          assert a[1..][..i - 1] == a[..i][1..] && b[1..][..i - 1] == b[..i][1..];
          assert TupleSmallerAt(a[1..], b[1..], i - 1);
        }
      }
    }
  }

  lemma DifferFirst(a: seq<string>, b: seq<string>, i: nat)
    requires 0 < i <= |a| && i <= |b| && a[..i] == b[..i]
    ensures a[0] == b[0]
  {
    assert a[..i][0] == a[0] && b[..i][0] == b[0];
  }

  lemma {:induction false} TupleTotal(a: seq<string>, b: seq<string>)
    ensures TupleLeq(a, b) || TupleLeq(b, a)
  {
    if a != [] && b != [] {
      if a[0] != b[0] { Text.LeqTotal(a[0], b[0]); } else { TupleTotal(a[1..], b[1..]); }
    }
  }

  lemma {:induction false} TupleAntisymmetric(a: seq<string>, b: seq<string>)
    requires TupleLeq(a, b) && TupleLeq(b, a)
    ensures a == b
  {
    if a != [] && b != [] {
      if a[0] != b[0] {
        Text.LeqAntisymmetric(a[0], b[0]);
      } else {
        TupleAntisymmetric(a[1..], b[1..]);
        assert a == [a[0]] + a[1..] && b == [b[0]] + b[1..];
      }
    }
  }

  lemma {:induction false} TupleTransitive(a: seq<string>, b: seq<string>, c: seq<string>)
    requires TupleLeq(a, b) && TupleLeq(b, c)
    ensures TupleLeq(a, c)
  {
    if a != [] && b != [] && c != [] {
      if a[0] == b[0] == c[0] {
        TupleTransitive(a[1..], b[1..], c[1..]);
      } else if a[0] != b[0] && b[0] != c[0] {
        Text.LeqTransitive(a[0], b[0], c[0]);
        if a[0] == c[0] { Text.LeqAntisymmetric(a[0], b[0]); }
      }
    }
  }

  /** Queue entries compare by order key, then by id. */
  predicate EntryLeq(x: Node, y: Node)
  {
    if x.key != y.key then TupleLeq(x.key, y.key) else Text.Leq(x.id, y.id)
  }

  function Earlier(index: map<string, Node>): (string, string) -> bool
  {
    (a: string, b: string) => a in index && b in index && EntryLeq(index[a], index[b])
  }

  /** The index holds each node under its own id. */
  ghost predicate Keyed(index: map<string, Node>)
  {
    forall a | a in index :: index[a].id == a
  }

  lemma EntryTransitive(x: Node, y: Node, z: Node)
    requires EntryLeq(x, y) && EntryLeq(y, z)
    ensures EntryLeq(x, z)
  {
    if x.key == y.key == z.key {
      Text.LeqTransitive(x.id, y.id, z.id);
    } else if x.key != y.key && y.key != z.key {
      TupleTransitive(x.key, y.key, z.key);
      if x.key == z.key { TupleAntisymmetric(x.key, y.key); }
    }
  }

  lemma EarlierIsTotalOrder(index: map<string, Node>)
    requires Keyed(index)
    ensures TotalOrderOn(index.Keys, Earlier(index))
  {
    forall a, b | a in index && b in index
      ensures Earlier(index)(a, b) || Earlier(index)(b, a)
      ensures Earlier(index)(a, b) && Earlier(index)(b, a) ==> a == b
    {
      var x, y := index[a], index[b];
      TupleTotal(x.key, y.key);
      Text.LeqTotal(x.id, y.id);
      assert EntryLeq(x, y) || EntryLeq(y, x);
      if EntryLeq(x, y) && EntryLeq(y, x) {
        if x.key != y.key { TupleAntisymmetric(x.key, y.key); } else { Text.LeqAntisymmetric(x.id, y.id); }
      }
    }
    forall a, b, c | a in index && b in index && c in index && Earlier(index)(a, b) && Earlier(index)(b, c)
      ensures Earlier(index)(a, c)
    {
      EntryTransitive(index[a], index[b], index[c]);
    }
  }

  // ---------------------------------------------------------------- declared identities

  ghost predicate DistinctIds(nodes: seq<Node>)
  {
    forall i, j | 0 <= i < j < |nodes| :: nodes[i].id != nodes[j].id
  }

  function Ids(nodes: seq<Node>): set<string>
  {
    set x | x in nodes :: x.id
  }

  /** The first node declared under each id. */
  function Index(nodes: seq<Node>): (m: map<string, Node>)
    ensures Keyed(m) && m.Keys == Ids(nodes)
  {
    if nodes == [] then map[]
    else
      var x, m := nodes[|nodes| - 1], Index(nodes[..|nodes| - 1]);
      assert nodes == nodes[..|nodes| - 1] + [x];
      if x.id in m then m else m[x.id := x]
  }

  /** Each later declaration of an id repeats its first definition or conflicts with it. */
  function IdentityFindings(nodes: seq<Node>): set<Finding>
  {
    if nodes == [] then {}
    else
      var x, rest := nodes[|nodes| - 1], nodes[..|nodes| - 1];
      var m := Index(rest);
      IdentityFindings(rest) +
      if x.id !in m then {}
      else if m[x.id].fingerprint == x.fingerprint then {DuplicateNodeId(x.id)}
      else {ConflictingDefinition(x.id)}
  }

  lemma DistinctSnoc(rest: seq<Node>, x: Node)
    ensures DistinctIds(rest + [x]) <==> DistinctIds(rest) && x.id !in Ids(rest)
  {
    var nodes := rest + [x];
    if DistinctIds(nodes) {
      forall i, j | 0 <= i < j < |rest| ensures rest[i].id != rest[j].id { assert nodes[i].id != nodes[j].id; }
      forall y | y in rest ensures y.id != x.id {
        var i :| 0 <= i < |rest| && rest[i] == y;
        assert nodes[i].id != nodes[|rest|].id;
      }
    } else if x.id !in Ids(rest) {
      assert forall i | 0 <= i < |rest| :: rest[i] in rest;
    }
  }

  lemma {:induction false} IdentityExactly(nodes: seq<Node>)
    ensures IdentityFindings(nodes) == {} <==> DistinctIds(nodes)
  {
    hide DistinctIds, Index;
    if nodes == [] {
      NoneDistinct();
    } else {
      var x, rest := nodes[|nodes| - 1], nodes[..|nodes| - 1];
      IdentityExactly(rest);
      assert nodes == rest + [x];
      DistinctSnoc(rest, x);
    }
  }

  lemma {:induction false} IndexHolds(nodes: seq<Node>)
    requires DistinctIds(nodes)
    ensures forall x | x in nodes :: Index(nodes)[x.id] == x
  {
    hide DistinctIds;
    if nodes != [] {
      var x, rest := nodes[|nodes| - 1], nodes[..|nodes| - 1];
      assert nodes == rest + [x];
      DistinctSnoc(rest, x);
      IndexHolds(rest);
    }
  }

  lemma NoneDistinct()
    ensures DistinctIds([])
  {
  }

  // ---------------------------------------------------------------- declared dependencies

  function Elements(xs: seq<string>): set<string>
  {
    set x | x in xs
  }

  /** The dependencies of a node that are other declared nodes. */
  function Present(ids: set<string>, x: Node): set<string>
  {
    set d | d in x.deps && d in ids && d != x.id
  }

  function EdgesOf(ids: set<string>, nodes: seq<Node>): set<(string, string)>
  {
    set x, d | x in nodes && d in Present(ids, x) :: (d, x.id)
  }

  function GraphOf(nodes: seq<Node>): Graph
  {
    Graph(Ids(nodes), EdgesOf(Ids(nodes), nodes))
  }

  function Duplicates(xs: seq<string>): set<string>
  {
    set i, j | 0 <= i < j < |xs| && xs[i] == xs[j] :: xs[i]
  }

  function DependencyFindings(ids: set<string>, x: Node): set<Finding>
  {
    var missing := Elements(x.deps) - ids;
    (if Duplicates(x.deps) != {} then {DuplicateEdge(x.id, Duplicates(x.deps))} else {})
    + (if x.id in x.deps then {SelfDependency(x.id)} else {})
    + (if missing != {} then {MissingDependency(x.id, missing)} else {})
  }

  function StructureFindings(ids: set<string>, nodes: seq<Node>): set<Finding>
  {
    set x, f | x in nodes && f in DependencyFindings(ids, x) :: f
  }

  /** A sound declaration: some nodes, distinct ids, and dependencies that are distinct, other,
      declared nodes. */
  ghost predicate Sound(nodes: seq<Node>)
  {
    && nodes != [] && DistinctIds(nodes)
    && forall x | x in nodes :: Distinct(x.deps) && x.id !in x.deps && forall d | d in x.deps :: d in Ids(nodes)
  }

  lemma DuplicatesExactly(xs: seq<string>)
    ensures Duplicates(xs) == {} <==> Distinct(xs)
  {
    if i, j :| 0 <= i < j < |xs| && xs[i] == xs[j] { assert xs[i] in Duplicates(xs); }
  }

  /** The structural findings are empty exactly on sound declarations. */
  lemma StructureExactly(nodes: seq<Node>)
    requires nodes != [] && DistinctIds(nodes)
    ensures StructureFindings(Ids(nodes), nodes) == {} <==> Sound(nodes)
  {
    hide DistinctIds;
    var ids := Ids(nodes);
    forall x | x in nodes
      ensures DependencyFindings(ids, x) == {} <==>
                Distinct(x.deps) && x.id !in x.deps && forall d | d in x.deps :: d in ids
    {
      DuplicatesExactly(x.deps);
      var missing := Elements(x.deps) - ids;
      forall d | d in x.deps && d !in ids ensures missing != {} { assert d in missing; }
    }
    forall x, f | x in nodes && f in DependencyFindings(ids, x) ensures f in StructureFindings(ids, nodes) {}
    hide DependencyFindings;
    forall x | x in nodes && StructureFindings(ids, nodes) == {} ensures DependencyFindings(ids, x) == {} {}
  }

  method DuplicatesOf(values: seq<string>) returns (duplicates: set<string>)
    ensures duplicates == Duplicates(values)
  {
    var seen: set<string> := {};
    duplicates := {};
    for k := 0 to |values|
      invariant seen == Elements(values[..k]) && duplicates == Duplicates(values[..k])
    {
      MoreDuplicates(values[..k], values[k]);
      assert values[..k + 1] == values[..k] + [values[k]];
      if values[k] in seen { duplicates := duplicates + {values[k]}; }
      seen := seen + {values[k]};
    }
    assert values[..|values|] == values;
  }

  lemma MoreDuplicates(xs: seq<string>, x: string)
    ensures Duplicates(xs + [x]) == Duplicates(xs) + if x in xs then {x} else {}
  {
    var ys := xs + [x];
    forall y | y in Duplicates(xs) ensures y in Duplicates(ys) {
      var i, j :| 0 <= i < j < |xs| && xs[i] == xs[j] && y == xs[i];
      assert ys[i] == ys[j] && y == ys[i];
    }
    if x in xs {
      var i :| 0 <= i < |xs| && xs[i] == x;
      assert ys[i] == ys[|xs|] && x == ys[i];
    }
    forall y | y in Duplicates(ys) ensures y in Duplicates(xs) || (x in xs && y == x) {
      var i, j :| 0 <= i < j < |ys| && ys[i] == ys[j] && y == ys[i];
      if j < |xs| { assert xs[i] == xs[j] && y == xs[i]; }
    }
  }

  lemma {:induction false} ElementsCount(xs: seq<string>)
    ensures |Elements(xs)| == |xs| <==> Duplicates(xs) == {}
    ensures |Elements(xs)| <= |xs|
  {
    if xs != [] {
      var rest, x := xs[..|xs| - 1], xs[|xs| - 1];
      ElementsCount(rest);
      assert xs == rest + [x];
      MoreDuplicates(rest, x);
      assert Elements(xs) == Elements(rest) + {x};
    }
  }

  // ---------------------------------------------------------------- wiring the graph

  lemma StrictlyOrderedDistinct(xs: seq<string>)
    requires Json.StrictlyOrdered(xs)
    ensures Distinct(xs)
  {
  }

  /** One node's edges: each present dependency gains a dependant. */
  method WireNode(ghost g0: Graph, id: string, present: seq<string>,
                  dependants0: map<string, seq<string>>, degrees0: map<string, int>, edgeCount0: nat)
    returns (dependants: map<string, seq<string>>, degrees: map<string, int>, edgeCount: nat, ghost g: Graph)
    requires Wired(g0, dependants0, degrees0) && edgeCount0 == |g0.edges| && id in g0.ids
    requires Distinct(present) && forall d | d in present :: d in g0.ids && (d, id) !in g0.edges
    ensures g.ids == g0.ids && Wired(g, dependants, degrees) && edgeCount == |g.edges|
    ensures forall e :: e in g.edges <==> e in g0.edges || (e.1 == id && e.0 in present)
  {
    hide Wired;
    dependants, degrees, edgeCount, g := dependants0, degrees0, edgeCount0, g0;
    for k := 0 to |present|
      invariant g.ids == g0.ids && Wired(g, dependants, degrees) && edgeCount == |g.edges|
      invariant forall e :: e in g.edges <==> e in g0.edges || (e.1 == id && e.0 in present[..k])
    {
      var d := present[k];
      assert d in present && d !in present[..k];
      assert (d, id) !in g.edges;
      WiredKeys(g, dependants, degrees);
      AddEdge(g, dependants, degrees, d, id);
      dependants := dependants[d := dependants[d] + [id]];
      degrees := degrees[id := degrees[id] + 1];
      edgeCount := edgeCount + 1;
      g := g.(edges := g.edges + {(d, id)});
      assert present[..k + 1] == present[..k] + [d];
    }
    assert present[..|present|] == present;
  }

  lemma WiredKeys(g: Graph, dependants: map<string, seq<string>>, degrees: map<string, int>)
    requires Wired(g, dependants, degrees)
    ensures dependants.Keys == g.ids && degrees.Keys == g.ids
  {
  }

  /** The dependency lists of the first nodes. */
  ghost predicate Listed(ids: set<string>, nodes: seq<Node>, dependencies: map<string, seq<string>>)
  {
    forall x | x in nodes :: x.id in dependencies && forall d :: d in dependencies[x.id] <==> d in Present(ids, x)
  }

  lemma EdgesPlus(ids: set<string>, nodes: seq<Node>, x: Node, e: (string, string))
    ensures e in EdgesOf(ids, nodes + [x]) <==> e in EdgesOf(ids, nodes) || (e.1 == x.id && e.0 in Present(ids, x))
  {
  }

  lemma FindingsPlus(ids: set<string>, nodes: seq<Node>, x: Node)
    ensures StructureFindings(ids, nodes + [x]) == StructureFindings(ids, nodes) + DependencyFindings(ids, x)
  {
  }

  /** The findings of one node, as they are appended. */
  method CheckNode(ids: set<string>, x: Node) returns (findings: set<Finding>)
    ensures findings == DependencyFindings(ids, x)
  {
    findings := {};
    var unique := Elements(x.deps);
    ElementsCount(x.deps);
    if |unique| != |x.deps| {
      var duplicates := DuplicatesOf(x.deps);
      findings := findings + {DuplicateEdge(x.id, duplicates)};
    }
    if x.id in unique { findings := findings + {SelfDependency(x.id)}; }
    var missing := unique - ids;
    if missing != {} { findings := findings + {MissingDependency(x.id, missing)}; }
  }

  lemma NoEdgeYet(ids: set<string>, nodes: seq<Node>, i: nat)
    requires DistinctIds(nodes) && i < |nodes|
    ensures forall e | e in EdgesOf(ids, nodes[..i]) :: e.1 != nodes[i].id
  {
  }

  lemma Unwired(ids: set<string>)
    ensures Wired(Graph(ids, {}), map u | u in ids :: [], map u | u in ids :: 0)
  {
  }

  method Wire(nodes: seq<Node>)
    returns (dependants: map<string, seq<string>>, dependencies: map<string, seq<string>>,
             degrees: map<string, int>, edgeCount: nat, findings: set<Finding>)
    requires DistinctIds(nodes)
    ensures Wired(GraphOf(nodes), dependants, degrees) && Listed(Ids(nodes), nodes, dependencies)
    ensures edgeCount == |GraphOf(nodes).edges| && findings == StructureFindings(Ids(nodes), nodes)
  {
    hide Wired, StructureFindings, DependencyFindings, EdgesOf, Present, DistinctIds;
    var ids := Ids(nodes);
    dependants, dependencies, degrees := map u | u in ids :: [], map[], map u | u in ids :: 0;
    edgeCount, findings := 0, {};
    ghost var g := Graph(ids, {});
    Unwired(ids);
    NothingDeclared(ids);
    for i := 0 to |nodes|
      invariant g == Graph(ids, EdgesOf(ids, nodes[..i])) && Wired(g, dependants, degrees) && edgeCount == |g.edges|
      invariant Listed(ids, nodes[..i], dependencies) && findings == StructureFindings(ids, nodes[..i])
    {
      var x := nodes[i];
      assert nodes[..i + 1] == nodes[..i] + [x] && x in nodes && x.id in ids;
      var found := CheckNode(ids, x);
      FindingsPlus(ids, nodes[..i], x);
      findings := findings + found;
      var present := Json.SortedKeys(Present(ids, x));
      StrictlyOrderedDistinct(present);
      PresentDeclared(ids, x);
      ListedPlus(ids, nodes, i, dependencies, present);
      dependencies := dependencies[x.id := present];
      NoEdgeYet(ids, nodes, i);
      dependants, degrees, edgeCount, g := WireNode(g, x.id, present, dependants, degrees, edgeCount);
      forall e ensures e in g.edges <==> e in EdgesOf(ids, nodes[..i + 1]) { EdgesPlus(ids, nodes[..i], x, e); }
      assert g.edges == EdgesOf(ids, nodes[..i + 1]);
    }
    assert nodes[..|nodes|] == nodes;
  }

  lemma NothingDeclared(ids: set<string>)
    ensures EdgesOf(ids, []) == {} && StructureFindings(ids, []) == {}
  {
  }

  lemma PresentDeclared(ids: set<string>, x: Node)
    ensures Present(ids, x) <= ids
  {
  }

  lemma ListedPlus(ids: set<string>, nodes: seq<Node>, i: nat, dependencies: map<string, seq<string>>,
                   present: seq<string>)
    requires DistinctIds(nodes) && i < |nodes| && Listed(ids, nodes[..i], dependencies)
    requires forall d :: d in present <==> d in Present(ids, nodes[i])
    ensures Listed(ids, nodes[..i + 1], dependencies[nodes[i].id := present])
  {
  }

  // ---------------------------------------------------------------- cycles

  /** The predecessors of a node that are themselves stuck. */
  ghost function StuckPredecessors(g: Graph, n: string): set<string>
  {
    set d | d in StuckNodes(g) && (d, n) in g.edges
  }

  /** One finding for each component with more than one node, and one for each node that is only
      downstream of a cycle, naming the stuck nodes it waits for. */
  ghost predicate CycleFinding(g: Graph, f: Finding)
  {
    match f
    case DependencyCycle(c) => |c| > 1 && exists a :: a in g.ids && c == ComponentOf(g, a)
    case BlockedByCycle(n, deps) => n in StuckNodes(g) && !OnCycle(g, n) && deps == StuckPredecessors(g, n)
    case _ => false
  }

  ghost predicate Lists(g: Graph, dependencies: map<string, seq<string>>)
  {
    forall u | u in g.ids :: u in dependencies && forall v :: v in dependencies[u] <==> (v, u) in g.edges
  }

  lemma OnCycleStuck(g: Graph, a: string)
    requires OnCycle(g, a)
    ensures Stuck(g, a)
  {
    ReachesSelf(g, a);
  }

  /** The restricted search finds the components of the whole graph. */
  lemma ComponentsOfAll(g: Graph, components: set<set<string>>, c: set<string>)
    requires Closed(g) && NoSelfEdge(g) && CyclicAmong(Restrict(g, StuckNodes(g)), StuckNodes(g), components)
    ensures c in components <==> |c| > 1 && exists a :: a in g.ids && c == ComponentOf(g, a)
  {
    hide Reaches, Stuck, OnCycle;
    var s := StuckNodes(g);
    if c in components {
      var a :| a in s && c == ComponentOf(Restrict(g, s), a);
      ComponentRestricted(g, a);
    }
    if a :| |c| > 1 && a in g.ids && c == ComponentOf(g, a) {
      OnCycleExactly(g, a);
      OnCycleStuck(g, a);
      ComponentRestricted(g, a);
    }
  }

  /** A stuck node is in one of the components found exactly when it is on a cycle. */
  lemma CoveredExactly(g: Graph, components: set<set<string>>, n: string)
    requires Closed(g) && NoSelfEdge(g) && CyclicAmong(Restrict(g, StuckNodes(g)), StuckNodes(g), components)
    requires n in StuckNodes(g)
    ensures (exists c :: c in components && n in c) <==> OnCycle(g, n)
  {
    hide Reaches, Stuck, CyclicAmong;
    var own := ComponentOf(g, n);
    ReachesSelf(g, n);
    OnCycleExactly(g, n);
    ComponentsOfAll(g, components, own);
    if c :| c in components && n in c {
      ComponentsOfAll(g, components, c);
      var a :| a in g.ids && c == ComponentOf(g, a);
      SameComponent(g, a, n);
    }
    if OnCycle(g, n) { assert own in components && n in own; }
  }

  lemma SameComponent(g: Graph, a: string, n: string)
    requires n in ComponentOf(g, a)
    ensures ComponentOf(g, n) == ComponentOf(g, a)
  {
    hide Reaches;
    forall b ensures b in ComponentOf(g, n) <==> b in ComponentOf(g, a) {
      if b in ComponentOf(g, n) { SameTransitive(g, a, n, b); }
      if b in ComponentOf(g, a) { SameTransitive(g, n, a, b); }
    }
  }

  /** The findings when the queue ran dry before all nodes were taken. */
  method Diagnose(dependants: map<string, seq<string>>, dependencies: map<string, seq<string>>,
                  degrees: map<string, int>, ghost g: Graph)
    returns (findings: set<Finding>)
    requires Closed(g) && NoSelfEdge(g) && Lists(g, dependencies) && degrees.Keys == g.ids && dependants.Keys == g.ids
    requires forall u | u in g.ids :: forall v :: v in dependants[u] <==> (u, v) in g.edges
    requires forall u | u in g.ids :: degrees[u] != 0 <==> Stuck(g, u)
    ensures forall f :: f in findings <==> CycleFinding(g, f)
  {
    hide Stuck, OnCycle, CyclicAmong;
    var unresolved := set u | u in degrees && degrees[u] != 0;
    assert unresolved == StuckNodes(g);
    ghost var h := Restrict(g, unresolved);
    var components := CyclicComponents(unresolved, dependants, dependencies, h);
    var cyclic := set c, n | c in components && n in c :: n;
    forall n | n in unresolved ensures n in cyclic <==> OnCycle(g, n) { CoveredExactly(g, components, n); }
    findings := (set c | c in components :: DependencyCycle(c))
                + (set n | n in unresolved && n !in cyclic ::
                     BlockedByCycle(n, set d | d in dependencies[n] && d in unresolved));
    forall f ensures f in findings <==> CycleFinding(g, f) {
      if f.DependencyCycle? { ComponentsOfAll(g, components, f.ids); }
      if f.BlockedByCycle? && f.id in unresolved {
        assert (set d | d in dependencies[f.id] && d in unresolved) == StuckPredecessors(g, f.id);
      }
    }
  }

  // ---------------------------------------------------------------- the resolver

  datatype Plan =
    | Valid(order: seq<Node>, nodeCount: nat, edgeCount: nat)
    | Invalid(findings: set<Finding>, nodeCount: nat, edgeCount: nat)

  function IdsOf(nodes: seq<Node>): seq<string>
  {
    seq(|nodes|, i requires 0 <= i < |nodes| => nodes[i].id)
  }

  /** The database's canonical order of the declared graph, under the queue's comparison. */
  ghost function Expected(nodes: seq<Node>): Result<seq<string>, ScheduleError>
  {
    EarlierIsTotalOrder(Index(nodes));
    CanonicalOrder(GraphOf(nodes), Earlier(Index(nodes)))
  }

  lemma GraphShape(nodes: seq<Node>)
    ensures Closed(GraphOf(nodes)) && NoSelfEdge(GraphOf(nodes))
  {
  }

  /** The dependency lists are those of the graph. */
  lemma ListedIsLists(nodes: seq<Node>, dependencies: map<string, seq<string>>)
    requires DistinctIds(nodes) && Listed(Ids(nodes), nodes, dependencies)
    ensures Lists(GraphOf(nodes), dependencies)
  {
  }

  /** Phase one: the first declaration of each id, and what is wrong with the others. */
  method Declare(nodes: seq<Node>) returns (index: map<string, Node>, findings: set<Finding>)
    ensures index == Index(nodes)
    ensures findings == IdentityFindings(nodes) + if nodes == [] then {EmptyGraph} else {}
  {
    index, findings := map[], {};
    for i := 0 to |nodes|
      invariant index == Index(nodes[..i]) && findings == IdentityFindings(nodes[..i])
    {
      var x := nodes[i];
      assert nodes[..i + 1][..i] == nodes[..i] && nodes[..i + 1][i] == x;
      if x.id !in index {
        index := index[x.id := x];
      } else {
        findings := findings + {if index[x.id].fingerprint == x.fingerprint
                                then DuplicateNodeId(x.id) else ConflictingDefinition(x.id)};
      }
    }
    assert nodes[..|nodes|] == nodes;
    if nodes == [] { findings := findings + {EmptyGraph}; }
  }

  /** What the resolver answers, phase by phase; each phase's findings hide the later ones. */
  ghost predicate Answers(nodes: seq<Node>, plan: Plan)
  {
    var g := GraphOf(nodes);
    if nodes == [] then plan == Invalid({EmptyGraph}, 0, 0)
    else if !DistinctIds(nodes) then plan == Invalid(IdentityFindings(nodes), |g.ids|, 0)
    else if !Sound(nodes) then plan == Invalid(StructureFindings(g.ids, nodes), |g.ids|, |g.edges|)
    else if Cyclic(g) then
      && plan.Invalid? && plan.nodeCount == |g.ids| && plan.edgeCount == |g.edges|
      && forall f :: f in plan.findings <==> CycleFinding(g, f)
    else
      && plan.Valid? && plan.nodeCount == |g.ids| && plan.edgeCount == |g.edges|
      && Expected(nodes) == Ok(IdsOf(plan.order)) && forall x | x in plan.order :: x in nodes
  }

  lemma AnswerIdentity(nodes: seq<Node>, identity: set<Finding>)
    requires identity == IdentityFindings(nodes) + (if nodes == [] then {EmptyGraph} else {})
    ensures identity != {} ==> Answers(nodes, Invalid(identity, |Ids(nodes)|, 0))
    ensures identity == {} ==> nodes != [] && DistinctIds(nodes)
  {
    NoIdentityFindings();
    IdentityExactly(nodes);
    if nodes == [] { assert Ids(nodes) == {}; }
  }

  lemma AnswerStructure(nodes: seq<Node>, structure: set<Finding>)
    requires nodes != [] && DistinctIds(nodes) && structure == StructureFindings(Ids(nodes), nodes)
    ensures structure != {} ==> Answers(nodes, Invalid(structure, |Ids(nodes)|, |GraphOf(nodes).edges|))
    ensures structure == {} ==> Sound(nodes)
  {
    StructureExactly(nodes);
  }

  /** Phase three, on a wired sound declaration: the queue, then the diagnosis of what is left. */
  method TakeOrDiagnose(nodes: seq<Node>, index: map<string, Node>, dependants: map<string, seq<string>>,
                        dependencies: map<string, seq<string>>, degrees: map<string, int>, edgeCount: nat)
    returns (plan: Plan)
    requires Sound(nodes) && index == Index(nodes) && edgeCount == |GraphOf(nodes).edges|
    requires Wired(GraphOf(nodes), dependants, degrees) && Listed(Ids(nodes), nodes, dependencies)
    ensures Answers(nodes, plan)
  {
    hide *;
    ghost var g := GraphOf(nodes);
    OrderSetup(nodes, dependencies);
    var order, left := TakeReady(g, Earlier(index), dependants, degrees);
    KeysCount(nodes);
    if |order| != |index| {
      Leftovers(g, Earlier(index), order, left, dependants, degrees);
      var findings := Diagnose(dependants, dependencies, left, g);
      AnswerDiagnosed(nodes, findings);
      return Invalid(findings, |index|, edgeCount);
    }
    TakenDeclared(nodes, g, Earlier(index), order);
    var ordered := seq(|order|, i requires 0 <= i < |order| => index[order[i]]);
    AnswerTaken(nodes, order, ordered);
    plan := Valid(ordered, |index|, edgeCount);
  }

  lemma OrderSetup(nodes: seq<Node>, dependencies: map<string, seq<string>>)
    requires Sound(nodes) && Listed(Ids(nodes), nodes, dependencies)
    ensures var g := GraphOf(nodes);
            && Closed(g) && NoSelfEdge(g) && Lists(g, dependencies) && DistinctIds(nodes)
            && TotalOrderOn(g.ids, Earlier(Index(nodes)))
            && Expected(nodes) == CanonicalOrder(g, Earlier(Index(nodes)))
  {
    GraphShape(nodes);
    EarlierIsTotalOrder(Index(nodes));
    ListedIsLists(nodes, dependencies);
  }

  lemma KeysCount(nodes: seq<Node>)
    ensures |Index(nodes)| == |GraphOf(nodes).ids|
  {
  }

  lemma AnswerDiagnosed(nodes: seq<Node>, findings: set<Finding>)
    requires Sound(nodes) && Expected(nodes).Err? && forall f :: f in findings <==> CycleFinding(GraphOf(nodes), f)
    ensures Answers(nodes, Invalid(findings, |Index(nodes)|, |GraphOf(nodes).edges|))
  {
    hide CycleFinding, CanonicalOrder;
    KeysCount(nodes);
    GraphShape(nodes);
    EarlierIsTotalOrder(Index(nodes));
    CanonicalOrderCorrect(GraphOf(nodes), Earlier(Index(nodes)));
  }

  lemma AnswerTaken(nodes: seq<Node>, order: seq<string>, ordered: seq<Node>)
    requires Sound(nodes) && Expected(nodes) == Ok(order) && |ordered| == |order|
    requires forall i | 0 <= i < |order| ::
               order[i] in Index(nodes) && ordered[i] == Index(nodes)[order[i]] && ordered[i] in nodes
    ensures Answers(nodes, Valid(ordered, |Index(nodes)|, |GraphOf(nodes).edges|))
  {
    hide CanonicalOrder;
    KeysCount(nodes);
    GraphShape(nodes);
    EarlierIsTotalOrder(Index(nodes));
    CanonicalOrderCorrect(GraphOf(nodes), Earlier(Index(nodes)));
    assert IdsOf(ordered) == order;
  }

  method Resolve(nodes: seq<Node>) returns (plan: Plan)
    ensures Answers(nodes, plan)
  {
    hide Answers, Listed, EdgesOf, Wired, Sound, DistinctIds, IdentityFindings, StructureFindings;
    var index, identity := Declare(nodes);
    AnswerIdentity(nodes, identity);
    assert |index| == |index.Keys|;
    if identity != {} { return Invalid(identity, |index|, 0); }
    var dependants, dependencies, degrees, edgeCount, structure := Wire(nodes);
    AnswerStructure(nodes, structure);
    if structure != {} { return Invalid(structure, |index|, edgeCount); }
    plan := TakeOrDiagnose(nodes, index, dependants, dependencies, degrees, edgeCount);
  }

  lemma NoIdentityFindings()
    ensures IdentityFindings([]) == {}
  {
  }

  lemma Leftovers(g: Graph, leq: (string, string) -> bool, order: seq<string>, left: map<string, int>,
                  dependants: map<string, seq<string>>, degrees: map<string, int>)
    requires Closed(g) && Greedy(g, leq, order) && ReadySet(g, order) == {} && Counting(g, order, left)
    requires Wired(g, dependants, degrees)
    ensures left.Keys == g.ids && dependants.Keys == g.ids
    ensures forall u | u in g.ids :: forall v :: v in dependants[u] <==> (u, v) in g.edges
    ensures forall u | u in g.ids :: left[u] != 0 <==> Stuck(g, u)
  {
    forall u | u in g.ids ensures left[u] != 0 <==> Stuck(g, u) { CountersExactly(g, leq, order, left, u); }
  }

  lemma TakenDeclared(nodes: seq<Node>, g: Graph, leq: (string, string) -> bool, order: seq<string>)
    requires DistinctIds(nodes) && g == GraphOf(nodes) && Greedy(g, leq, order)
    ensures forall i | 0 <= i < |order| :: order[i] in Index(nodes) && Index(nodes)[order[i]] in nodes
  {
    GreedyBound(g, leq, order);
    IndexHolds(nodes);
    forall i | 0 <= i < |order| ensures order[i] in Index(nodes) && Index(nodes)[order[i]] in nodes {
      var x :| x in nodes && x.id == order[i];
    }
  }

  /** A plan is returned exactly for sound, acyclic declarations, and it is then the least
      topological order; otherwise there is at least one finding. */
  lemma AnswersMean(nodes: seq<Node>, plan: Plan)
    requires Answers(nodes, plan)
    ensures plan.Valid? <==> Sound(nodes) && !Cyclic(GraphOf(nodes))
    ensures plan.Valid? ==>
              && Topological(GraphOf(nodes), IdsOf(plan.order))
              && forall u | Topological(GraphOf(nodes), u) :: LexLeq(IdsOf(plan.order), u, Earlier(Index(nodes)))
    ensures plan.Invalid? ==> plan.findings != {}
  {
    hide LexLeq, Topological, IdsOf, Earlier, CycleFinding;
    var g := GraphOf(nodes);
    GraphShape(nodes);
    EarlierIsTotalOrder(Index(nodes));
    CanonicalOrderCorrect(g, Earlier(Index(nodes)));
    forall u | Topological(g, u)
      ensures CanonicalOrder(g, Earlier(Index(nodes))).Ok?
      ensures LexLeq(CanonicalOrder(g, Earlier(Index(nodes))).value, u, Earlier(Index(nodes)))
    {
      CanonicalOrderIsLeast(g, Earlier(Index(nodes)), u);
    }
    IdentityExactly(nodes);
    if plan.Invalid? && nodes != [] && DistinctIds(nodes) {
      StructureExactly(nodes);
      if Sound(nodes) { CyclicHasFinding(g); }
    }
  }

  lemma CyclicHasFinding(g: Graph)
    requires Closed(g) && NoSelfEdge(g) && Cyclic(g)
    ensures exists f :: CycleFinding(g, f)
  {
    var c :| IsCycle(g, c);
    CycleNode(g, c);
    assert (c[|c| - 1], c[0]) in g.edges;
    OnCycleExactly(g, c[0]);
    assert CycleFinding(g, DependencyCycle(ComponentOf(g, c[0])));
  }
}
