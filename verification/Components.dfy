/** Strongly connected components in two depth-first passes: forwards for a finishing order, then
    backwards from the last node finished. */
module Components {
  import opened Schedule
  import Json

  // ---------------------------------------------------------------- reachability

  /** Some path, possibly of one node, leads from a to b. */
  ghost predicate Reaches(g: Graph, a: string, b: string)
  {
    exists p :: IsPath(g, p) && p[0] == a && p[|p| - 1] == b
  }

  ghost predicate Same(g: Graph, a: string, b: string)
  {
    Reaches(g, a, b) && Reaches(g, b, a)
  }

  lemma ReachesSelf(g: Graph, a: string)
    ensures Reaches(g, a, a)
  {
    assert IsPath(g, [a]);
  }

  lemma ReachesEdge(g: Graph, a: string, b: string)
    requires (a, b) in g.edges
    ensures Reaches(g, a, b)
  {
    assert IsPath(g, [a, b]);
  }

  lemma ReachesTransitive(g: Graph, a: string, b: string, c: string)
    requires Reaches(g, a, b) && Reaches(g, b, c)
    ensures Reaches(g, a, c)
  {
    var p :| IsPath(g, p) && p[0] == a && p[|p| - 1] == b;
    var q :| IsPath(g, q) && q[0] == b && q[|q| - 1] == c;
    var r := p + q[1..];
    forall i | 0 <= i < |r| - 1 ensures (r[i], r[i + 1]) in g.edges {
      if i < |p| - 1 {
        assert (p[i], p[i + 1]) in g.edges;
      } else {
        var j := i - |p| + 1;
        assert (q[j], q[j + 1]) in g.edges;
      }
    }
    assert IsPath(g, r) && r[0] == a && r[|r| - 1] == c;
  }

  lemma SameTransitive(g: Graph, a: string, b: string, c: string)
    requires Same(g, a, b) && Same(g, b, c)
    ensures Same(g, a, c) && Same(g, c, a)
  {
    ReachesTransitive(g, a, b, c);
    ReachesTransitive(g, c, b, a);
  }

  /** What a set closed under edges contains, it contains the whole future of. */
  lemma ReachesStays(g: Graph, s: set<string>, a: string, b: string)
    requires a in s && Reaches(g, a, b)
    requires forall u, v | u in s && (u, v) in g.edges :: v in s
    ensures b in s
  {
    var p :| IsPath(g, p) && p[0] == a && p[|p| - 1] == b;
    PathStays(g, s, p, |p| - 1);
  }

  lemma {:induction false} PathStays(g: Graph, s: set<string>, p: seq<string>, i: nat)
    requires IsPath(g, p) && p[0] in s && i < |p|
    requires forall u, v | u in s && (u, v) in g.edges :: v in s
    ensures p[i] in s
  {
    if i > 0 {
      PathStays(g, s, p, i - 1);
      assert (p[i - 1], p[i - 1 + 1]) in g.edges;
    }
  }

  function Reversed(g: Graph): Graph
  {
    Graph(g.ids, set e | e in g.edges :: (e.1, e.0))
  }

  function Flipped(p: seq<string>): seq<string>
  {
    seq(|p|, i requires 0 <= i < |p| => p[|p| - 1 - i])
  }

  lemma ReachesReversed(g: Graph, a: string, b: string)
    requires Reaches(g, a, b)
    ensures Reaches(Reversed(g), b, a)
  {
    var p :| IsPath(g, p) && p[0] == a && p[|p| - 1] == b;
    var q, h := Flipped(p), Reversed(g);
    forall i | 0 <= i < |q| - 1 ensures (q[i], q[i + 1]) in h.edges {
      var j := |p| - 2 - i;
      var e := (p[j], p[j + 1]);
      assert e in g.edges;
      assert (e.1, e.0) in h.edges;
    }
    assert IsPath(h, q) && q[0] == b && q[|q| - 1] == a;
  }

  /** The same for the past of a node. */
  lemma ReachedStays(g: Graph, s: set<string>, a: string, b: string)
    requires b in s && Reaches(g, a, b)
    requires forall u, v | v in s && (u, v) in g.edges :: u in s
    ensures a in s
  {
    ReachesReversed(g, a, b);
    ReachesStays(Reversed(g), s, b, a);
  }

  /** The component of a node. */
  ghost function ComponentOf(g: Graph, a: string): set<string>
  {
    set b | b in g.ids && Same(g, a, b)
  }

  // ---------------------------------------------------------------- first pass

  /** A node being explored, and how far along its neighbours the search is. */
  datatype Frame = Frame(node: string, next: nat, neighbours: seq<string>)

  ghost predicate FrameOk(g: Graph, visited: set<string>, f: Frame)
  {
    && f.next <= |f.neighbours|
    && (forall v :: v in f.neighbours <==> (f.node, v) in g.edges)
    && forall i | 0 <= i < f.next :: f.neighbours[i] in visited
  }

  ghost predicate OnStack(stack: seq<Frame>, v: string)
  {
    exists i | 0 <= i < |stack| :: stack[i].node == v
  }

  /** Everything the i-th finished node reaches was finished by then. */
  ghost predicate Closes(g: Graph, finish: seq<string>, i: nat)
    requires i < |finish|
  {
    forall s | Reaches(g, finish[i], s) :: s in finish[..i + 1]
  }

  /** The component of the node has a finished member that closes it. */
  ghost predicate Settled(g: Graph, finish: seq<string>, x: string)
  {
    exists i: nat :: i < |finish| && Same(g, x, finish[i]) && Closes(g, finish, i)
  }

  /** The component of the node has a member still being explored. */
  ghost predicate Pending(g: Graph, stack: seq<Frame>, x: string)
  {
    exists i | 0 <= i < |stack| :: Same(g, x, stack[i].node)
  }

  ghost predicate Partition(g: Graph, visited: set<string>, finish: seq<string>, stack: seq<Frame>)
  {
    && visited <= g.ids && Distinct(finish)
    && (forall v :: v in visited <==> v in finish || OnStack(stack, v))
    && (forall i | 0 <= i < |stack| :: stack[i].node !in finish)
    && (forall i, j | 0 <= i < j < |stack| :: stack[i].node != stack[j].node)
  }

  ghost predicate Explored(g: Graph, visited: set<string>, finish: seq<string>, stack: seq<Frame>)
  {
    && (forall u, v | u in finish && (u, v) in g.edges :: v in visited)
    && (forall i | 0 <= i < |stack| :: FrameOk(g, visited, stack[i]))
    && (forall i | 0 <= i < |stack| - 1 :: (stack[i].node, stack[i + 1].node) in g.edges)
  }

  ghost predicate Witnessed(g: Graph, finish: seq<string>, stack: seq<Frame>)
  {
    forall x | x in finish :: Settled(g, finish, x) || Pending(g, stack, x)
  }

  ghost predicate Searching(g: Graph, visited: set<string>, finish: seq<string>, stack: seq<Frame>)
  {
    Partition(g, visited, finish, stack) && Explored(g, visited, finish, stack) && Witnessed(g, finish, stack)
  }

  lemma {:induction false} ChainReaches(g: Graph, visited: set<string>, finish: seq<string>, stack: seq<Frame>,
                                          i: nat, j: nat)
    requires Explored(g, visited, finish, stack) && i <= j < |stack|
    ensures Reaches(g, stack[i].node, stack[j].node)
  {
    if i == j {
      ReachesSelf(g, stack[i].node);
    } else {
      ChainReaches(g, visited, finish, stack, i, j - 1);
      assert (stack[j - 1].node, stack[j - 1 + 1].node) in g.edges;
      ReachesEdge(g, stack[j - 1].node, stack[j].node);
      ReachesTransitive(g, stack[i].node, stack[j - 1].node, stack[j].node);
    }
  }

  lemma SettledStays(g: Graph, finish: seq<string>, u: string, x: string)
    requires Settled(g, finish, x)
    ensures Settled(g, finish + [u], x)
  {
    var i: nat :| i < |finish| && Same(g, x, finish[i]) && Closes(g, finish, i);
    var longer := finish + [u];
    assert longer[i] == finish[i] && longer[..i + 1] == finish[..i + 1];
    assert Closes(g, longer, i);
  }

  /** A node that finishes while it reaches no node below it on the stack closes its component. */
  lemma LastOfComponent(g: Graph, visited: set<string>, finish: seq<string>, stack: seq<Frame>)
    requires Partition(g, visited, finish, stack) && Explored(g, visited, finish, stack) && stack != []
    requires var top := stack[|stack| - 1]; top.next == |top.neighbours|
    requires forall i | 0 <= i < |stack| - 1 :: !Reaches(g, stack[|stack| - 1].node, stack[i].node)
    ensures Closes(g, finish + [stack[|stack| - 1].node], |finish|)
  {
    var top := stack[|stack| - 1];
    var longer := finish + [top.node];
    assert longer[..|finish| + 1] == longer;
    forall s | Reaches(g, top.node, s) ensures s in longer {
      var future := set v | v in longer && Reaches(g, top.node, v);
      ReachesSelf(g, top.node);
      assert longer[|finish|] == top.node;
      forall u, v | u in future && (u, v) in g.edges ensures v in future {
        ReachesEdge(g, u, v);
        ReachesTransitive(g, top.node, u, v);
        assert v in visited by {
          if u == top.node {
            assert FrameOk(g, visited, top);
            var k :| 0 <= k < |top.neighbours| && top.neighbours[k] == v;
          }
        }
      }
      ReachesStays(g, future, top.node, s);
    }
  }

  /** The explored top either lies on a cycle with a node below it, or closes its component. */
  lemma TopWitness(g: Graph, visited: set<string>, finish: seq<string>, stack: seq<Frame>)
    requires Partition(g, visited, finish, stack) && Explored(g, visited, finish, stack) && stack != []
    requires var top := stack[|stack| - 1]; top.next == |top.neighbours|
    ensures var u := stack[|stack| - 1].node;
            Settled(g, finish + [u], u) || Pending(g, stack[..|stack| - 1], u)
  {
    hide Partition, Explored, Reaches, Closes;
    var u, rest := stack[|stack| - 1].node, stack[..|stack| - 1];
    if i :| 0 <= i < |stack| - 1 && Reaches(g, u, stack[i].node) {
      ChainReaches(g, visited, finish, stack, i, |stack| - 1);
      assert Same(g, u, rest[i].node);
    } else {
      LastOfComponent(g, visited, finish, stack);
      ReachesSelf(g, u);
      assert (finish + [u])[|finish|] == u;
    }
  }

  /** Popping the explored top keeps every finished node witnessed. */
  lemma PopWitness(g: Graph, visited: set<string>, finish: seq<string>, stack: seq<Frame>)
    requires Searching(g, visited, finish, stack) && stack != []
    requires var top := stack[|stack| - 1]; top.next == |top.neighbours|
    ensures Witnessed(g, finish + [stack[|stack| - 1].node], stack[..|stack| - 1])
  {
    hide Partition, Explored, Settled, Pending;
    var u, rest := stack[|stack| - 1].node, stack[..|stack| - 1];
    TopWitness(g, visited, finish, stack);
    forall x | x in finish + [u] ensures Settled(g, finish + [u], x) || Pending(g, rest, x) {
      if x != u { FinishedStaysWitnessed(g, finish, stack, x); }
    }
  }

  lemma FinishedStaysWitnessed(g: Graph, finish: seq<string>, stack: seq<Frame>, x: string)
    requires stack != [] && x in finish && Witnessed(g, finish, stack)
    requires var u, rest := stack[|stack| - 1].node, stack[..|stack| - 1];
             Settled(g, finish + [u], u) || Pending(g, rest, u)
    ensures var u, rest := stack[|stack| - 1].node, stack[..|stack| - 1];
            Settled(g, finish + [u], x) || Pending(g, rest, x)
  {
    var u, rest := stack[|stack| - 1].node, stack[..|stack| - 1];
    if Settled(g, finish, x) {
      SettledStays(g, finish, u, x);
    } else {
      hide Settled, Reaches;
      var i :| 0 <= i < |stack| && Same(g, x, stack[i].node);
      if i < |rest| {
        assert rest[i] == stack[i];
      } else if Settled(g, finish + [u], u) {
        SettledShared(g, finish + [u], x, u);
      } else {
        var k :| 0 <= k < |rest| && Same(g, u, rest[k].node);
        SameTransitive(g, x, u, rest[k].node);
      }
    }
  }

  lemma SettledShared(g: Graph, finish: seq<string>, x: string, u: string)
    requires Same(g, x, u) && Settled(g, finish, u)
    ensures Settled(g, finish, x)
  {
    hide Closes, Reaches;
    var k: nat :| k < |finish| && Same(g, u, finish[k]) && Closes(g, finish, k);
    SameTransitive(g, x, u, finish[k]);
  }

  /** Popping the explored top. */
  lemma PopKeeps(g: Graph, visited: set<string>, finish: seq<string>, stack: seq<Frame>)
    requires Searching(g, visited, finish, stack) && stack != []
    requires var top := stack[|stack| - 1]; top.next == |top.neighbours|
    ensures Searching(g, visited, finish + [stack[|stack| - 1].node], stack[..|stack| - 1])
  {
    hide Witnessed;
    assert Witnessed(g, finish, stack);
    PopWitness(g, visited, finish, stack);
    var top, rest := stack[|stack| - 1], stack[..|stack| - 1];
    var longer := finish + [top.node];
    assert longer[|finish|] == top.node;
    assert FrameOk(g, visited, top);
    forall v ensures v in visited <==> v in longer || OnStack(rest, v) {
      if OnStack(stack, v) {
        var i :| 0 <= i < |stack| && stack[i].node == v;
        if i < |rest| { assert rest[i].node == v; }
      }
    }
    forall v | (top.node, v) in g.edges ensures v in visited {
      var k :| 0 <= k < |top.neighbours| && top.neighbours[k] == v;
    }
  }

  /** Stepping past a neighbour that was seen before. */
  lemma StepKeeps(g: Graph, visited: set<string>, finish: seq<string>, stack: seq<Frame>, k: nat)
    requires Searching(g, visited, finish, stack) && k < |stack|
    requires stack[k].next < |stack[k].neighbours| && stack[k].neighbours[stack[k].next] in visited
    ensures Searching(g, visited, finish, stack[k := stack[k].(next := stack[k].next + 1)])
  {
    hide Partition, Witnessed;
    var moved := stack[k := stack[k].(next := stack[k].next + 1)];
    forall i | 0 <= i < |stack| ensures moved[i].node == stack[i].node && FrameOk(g, visited, moved[i]) {
      assert FrameOk(g, visited, stack[i]);
    }
    SameNodes(g, visited, finish, stack, moved);
    forall i | 0 <= i < |moved| - 1 ensures (moved[i].node, moved[i + 1].node) in g.edges {
      assert (stack[i].node, stack[i + 1].node) in g.edges;
    }
  }

  lemma SameNodes(g: Graph, visited: set<string>, finish: seq<string>, stack: seq<Frame>, moved: seq<Frame>)
    requires |moved| == |stack| && forall i | 0 <= i < |stack| :: moved[i].node == stack[i].node
    requires Partition(g, visited, finish, stack) && Witnessed(g, finish, stack)
    ensures Partition(g, visited, finish, moved) && Witnessed(g, finish, moved)
  {
  }

  lemma PushPartition(g: Graph, visited: set<string>, finish: seq<string>, stack: seq<Frame>, f: Frame)
    requires Partition(g, visited, finish, stack) && f.node in g.ids && f.node !in visited
    ensures Partition(g, visited + {f.node}, finish, stack + [f])
  {
    var longer := stack + [f];
    forall i | 0 <= i < |stack| ensures stack[i].node in visited { assert OnStack(stack, stack[i].node); }
    forall v ensures OnStack(longer, v) <==> OnStack(stack, v) || v == f.node {
      if OnStack(stack, v) { var i :| 0 <= i < |stack| && stack[i].node == v; assert longer[i].node == v; }
      assert longer[|stack|].node == f.node;
    }
  }

  lemma PushExplored(g: Graph, visited: set<string>, finish: seq<string>, stack: seq<Frame>, f: Frame)
    requires Explored(g, visited, finish, stack) && FrameOk(g, visited + {f.node}, f)
    requires stack != [] ==> (stack[|stack| - 1].node, f.node) in g.edges
    ensures Explored(g, visited + {f.node}, finish, stack + [f])
  {
  }

  lemma PushWitness(g: Graph, finish: seq<string>, stack: seq<Frame>, f: Frame)
    requires Witnessed(g, finish, stack)
    ensures Witnessed(g, finish, stack + [f])
  {
    var longer := stack + [f];
    forall x | x in finish && Pending(g, stack, x) ensures Pending(g, longer, x) {
      var i :| 0 <= i < |stack| && Same(g, x, stack[i].node);
      assert longer[i] == stack[i];
    }
  }

  /** Descending to a neighbour that was not seen before. */
  lemma PushKeeps(g: Graph, visited: set<string>, finish: seq<string>, stack: seq<Frame>, f: Frame)
    requires Searching(g, visited, finish, stack)
    requires f.node in g.ids && f.node !in visited && FrameOk(g, visited + {f.node}, f)
    requires stack != [] ==> (stack[|stack| - 1].node, f.node) in g.edges
    ensures Searching(g, visited + {f.node}, finish, stack + [f])
  {
    hide Partition, Explored, Witnessed, FrameOk;
    PushPartition(g, visited, finish, stack, f);
    PushExplored(g, visited, finish, stack, f);
    PushWitness(g, finish, stack, f);
  }

  /** The adjacency lists of the restricted graph. */
  ghost predicate Successors(g: Graph, lists: map<string, seq<string>>)
  {
    forall u | u in g.ids :: u in lists && forall v :: v in g.ids ==> (v in lists[u] <==> (u, v) in g.edges)
  }

  ghost predicate Predecessors(g: Graph, lists: map<string, seq<string>>)
  {
    forall u | u in g.ids :: u in lists && forall v :: v in g.ids ==> (v in lists[u] <==> (v, u) in g.edges)
  }

  function Neighbours(unresolved: set<string>, lists: map<string, seq<string>>, u: string): seq<string>
    requires u in lists
  {
    Json.SortedKeys(set v | v in lists[u] && v in unresolved)
  }

  lemma FreshFrame(g: Graph, lists: map<string, seq<string>>, visited: set<string>, u: string)
    requires Closed(g) && Successors(g, lists) && u in g.ids
    ensures FrameOk(g, visited, Frame(u, 0, Neighbours(g.ids, lists, u)))
  {
  }

  /** What the first pass guarantees. */
  ghost predicate Finished(g: Graph, finish: seq<string>)
  {
    && Distinct(finish) && (forall v :: v in finish <==> v in g.ids)
    && forall x | x in g.ids :: Settled(g, finish, x)
  }

  lemma SearchStarts(g: Graph)
    ensures Searching(g, {}, [], [])
  {
  }

  lemma SearchEnds(g: Graph, visited: set<string>, finish: seq<string>)
    requires Searching(g, visited, finish, []) && forall x | x in g.ids :: x in visited
    ensures Finished(g, finish)
  {
  }

  /** The first pass: an order in which every component has a member that closes it. */
  method FinishOrder(unresolved: set<string>, dependants: map<string, seq<string>>, ghost g: Graph)
    returns (finish: seq<string>)
    requires g.ids == unresolved && Closed(g) && Successors(g, dependants)
    ensures Finished(g, finish)
  {
    hide Searching, FrameOk, Finished;
    finish := [];
    var visited: set<string> := {};
    SearchStarts(g);
    var starts := Json.SortedKeys(unresolved);
    for n := 0 to |starts|
      invariant Searching(g, visited, finish, [])
      invariant forall i | 0 <= i < n :: starts[i] in visited
    {
      if starts[n] !in visited {
        var f := Frame(starts[n], 0, Neighbours(unresolved, dependants, starts[n]));
        FreshFrame(g, dependants, visited + {starts[n]}, starts[n]);
        PushKeeps(g, visited, finish, [], f);
        assert [] + [f] == [f];
        visited := visited + {starts[n]};
        finish, visited := Drain(unresolved, dependants, g, finish, visited, [f]);
      }
    }
    assert forall x | x in unresolved :: x in starts;
    SearchEnds(g, visited, finish);
  }

  /** The next neighbour of the top is a node, one edge away. */
  lemma NextNeighbour(g: Graph, visited: set<string>, finish: seq<string>, stack: seq<Frame>)
    requires Closed(g) && Explored(g, visited, finish, stack) && stack != []
    requires var top := stack[|stack| - 1]; top.next < |top.neighbours|
    ensures var top := stack[|stack| - 1];
            (top.node, top.neighbours[top.next]) in g.edges && top.neighbours[top.next] in g.ids
  {
    var top := stack[|stack| - 1];
    assert FrameOk(g, visited, top);
    var e := (top.node, top.neighbours[top.next]);
    assert e in g.edges;
  }

  /** The stack with its top moved on and a new frame above it. */
  function Descended(stack: seq<Frame>, f: Frame): seq<Frame>
    requires stack != []
  {
    var k := |stack| - 1;
    stack[k := stack[k].(next := stack[k].next + 1)] + [f]
  }

  /** Stepping onto a neighbour that was not seen before. */
  lemma DescendKeeps(g: Graph, visited: set<string>, finish: seq<string>, stack: seq<Frame>, f: Frame)
    requires Closed(g) && Searching(g, visited, finish, stack) && stack != []
    requires var top := stack[|stack| - 1]; top.next < |top.neighbours| && f.node == top.neighbours[top.next]
    requires f.node !in visited && FrameOk(g, visited + {f.node}, f)
    ensures Searching(g, visited + {f.node}, finish, Descended(stack, f))
  {
    hide Partition, Explored, Witnessed, FrameOk;
    NextNeighbour(g, visited, finish, stack);
    PushKeeps(g, visited, finish, stack, f);
    var pushed, k := stack + [f], |stack| - 1;
    StepKeeps(g, visited + {f.node}, finish, pushed, k);
    assert pushed[k := pushed[k].(next := pushed[k].next + 1)] == Descended(stack, f);
  }

  lemma NextIsNode(g: Graph, visited: set<string>, finish: seq<string>, stack: seq<Frame>)
    requires Closed(g) && Searching(g, visited, finish, stack) && stack != []
    requires var top := stack[|stack| - 1]; top.next < |top.neighbours|
    ensures var top := stack[|stack| - 1]; top.neighbours[top.next] in g.ids
  {
    hide Partition, Explored, Witnessed;
    NextNeighbour(g, visited, finish, stack);
  }

  lemma SearchBounds(g: Graph, visited: set<string>, finish: seq<string>, stack: seq<Frame>)
    requires Searching(g, visited, finish, stack)
    ensures |visited| <= |g.ids| && |finish| <= |g.ids|
    ensures stack != [] ==> var top := stack[|stack| - 1]; top.next <= |top.neighbours|
    ensures stack == [] ==> forall v :: v in visited <==> v in finish
  {
    SubsetCardinality(visited, g.ids);
    DistinctCardinality(finish, g.ids);
    if stack != [] { assert FrameOk(g, visited, stack[|stack| - 1]); }
  }

  lemma {:induction false} SubsetCardinality(a: set<string>, b: set<string>)
    requires a <= b
    ensures |a| <= |b|
    decreases |a|
  {
    if a != {} {
      var x :| x in a;
      SubsetCardinality(a - {x}, b - {x});
    }
  }

  /** The inner loop of the first pass, until the stack is empty. */
  method Drain(unresolved: set<string>, dependants: map<string, seq<string>>, ghost g: Graph,
               finish0: seq<string>, visited0: set<string>, stack0: seq<Frame>)
    returns (finish: seq<string>, visited: set<string>)
    requires g.ids == unresolved && Closed(g) && Successors(g, dependants) && Searching(g, visited0, finish0, stack0)
    ensures Searching(g, visited, finish, []) && visited0 <= visited
  {
    hide Searching, FrameOk;
    finish, visited := finish0, visited0;
    var stack := stack0;
    while stack != []
      invariant Searching(g, visited, finish, stack) && visited0 <= visited
      decreases |unresolved| - |visited|, |unresolved| - |finish|,
                if stack == [] then 0 else |stack[|stack| - 1].neighbours| - stack[|stack| - 1].next
    {
      SearchBounds(g, visited, finish, stack);
      var k := |stack| - 1;
      var top := stack[k];
      if top.next < |top.neighbours| {
        var v := top.neighbours[top.next];
        ghost var before := stack;
        stack := stack[k := top.(next := top.next + 1)];
        if v !in visited {
          NextIsNode(g, visited, finish, before);
          FreshFrame(g, dependants, visited + {v}, v);
          var f := Frame(v, 0, Neighbours(unresolved, dependants, v));
          DescendKeeps(g, visited, finish, before, f);
          visited := visited + {v};
          stack := stack + [f];
        } else {
          StepKeeps(g, visited, finish, before, k);
        }
      } else {
        PopKeeps(g, visited, finish, stack);
        finish := finish + [top.node];
        stack := stack[..k];
      }
    }
  }

  // ---------------------------------------------------------------- second pass

  /** Whole components have been placed, never a part of one. */
  ghost predicate Whole(g: Graph, placed: set<string>)
  {
    && placed <= g.ids
    && forall x, y | x in placed && y in g.ids && Same(g, x, y) :: y in placed
  }

  /** The second pass has come to the k-th node from the end. */
  ghost predicate Turn(g: Graph, finish: seq<string>, k: nat, placed: set<string>)
  {
    && Closed(g) && Finished(g, finish) && Whole(g, placed)
    && k < |finish| && forall i | k < i < |finish| :: finish[i] in placed
  }

  /** The member that closes a node's component finished no earlier than anything the node reaches. */
  lemma ClosingIndex(g: Graph, finish: seq<string>, k: nat, p: string) returns (i: nat)
    requires Distinct(finish) && k < |finish| && Settled(g, finish, p) && Reaches(g, p, finish[k])
    ensures k <= i < |finish| && Same(g, p, finish[i])
  {
    i :| i < |finish| && Same(g, p, finish[i]) && Closes(g, finish, i);
    ReachesTransitive(g, finish[i], p, finish[k]);
    assert finish[k] in finish[..i + 1];
    var j :| 0 <= j < i + 1 && finish[..i + 1][j] == finish[k];
    assert j == k;
  }

  /** Of the nodes not yet placed, only the start's own component reaches it. */
  lemma OnlyOwnComponent(g: Graph, finish: seq<string>, k: nat, placed: set<string>, p: string)
    requires Turn(g, finish, k, placed) && p in g.ids && p !in placed && Reaches(g, p, finish[k])
    ensures Same(g, p, finish[k])
  {
    hide Reaches, Settled;
    var i := ClosingIndex(g, finish, k, p);
    assert Same(g, finish[i], p);
  }

  /** The backward search from a start: what it collected and what it still has to visit. */
  ghost predicate Growing(g: Graph, placed: set<string>, start: string, component: set<string>, stack: seq<string>)
  {
    && component <= ComponentOf(g, start) && component !! placed
    && (forall p | p in stack :: p in ComponentOf(g, start))
    && (start in component || start in stack)
    && forall u, p | u in component && (p, u) in g.edges && p !in placed :: p in component || p in stack
  }

  /** When nothing is left to visit, the whole component was collected. */
  lemma GrownIsComponent(g: Graph, placed: set<string>, start: string, component: set<string>)
    requires Closed(g) && Whole(g, placed) && start in g.ids && start !in placed
    requires Growing(g, placed, start, component, [])
    ensures component == ComponentOf(g, start)
  {
    forall y | y in ComponentOf(g, start) ensures y in component {
      var past := set v | v in g.ids && (v in component || !Reaches(g, start, v));
      forall u, v | v in past && (u, v) in g.edges ensures u in past {
        assert u in g.ids;
        if Reaches(g, start, u) {
          ReachesEdge(g, u, v);
          ReachesTransitive(g, start, u, v);
          assert v in component;
          MembersUnplaced(g, placed, start, u, v);
        }
      }
      ReachedStays(g, past, y, start);
    }
  }

  /** A node between the start and a member of its component is a member, so it is unplaced. */
  lemma MembersUnplaced(g: Graph, placed: set<string>, start: string, u: string, v: string)
    requires Whole(g, placed) && start in g.ids && start !in placed
    requires v in ComponentOf(g, start) && (u, v) in g.edges && Reaches(g, start, u)
    ensures u !in placed
  {
    ReachesEdge(g, u, v);
    ReachesTransitive(g, u, v, start);
    assert Same(g, u, start);
  }

  /** An unplaced predecessor of a member is a member. */
  lemma PredecessorIsMember(g: Graph, finish: seq<string>, k: nat, placed: set<string>, u: string, p: string)
    requires Turn(g, finish, k, placed) && u in ComponentOf(g, finish[k]) && (p, u) in g.edges && p !in placed
    ensures p in ComponentOf(g, finish[k])
  {
    ReachesEdge(g, p, u);
    ReachesTransitive(g, p, u, finish[k]);
    OnlyOwnComponent(g, finish, k, placed, p);
  }

  /** Visiting one node: its unplaced predecessors belong to the component and are to be visited. */
  lemma VisitKeeps(g: Graph, finish: seq<string>, k: nat, placed: set<string>, component: set<string>,
                   stack: seq<string>, u: string, pushed: seq<string>)
    requires Turn(g, finish, k, placed) && k < |finish| && u !in placed && u !in component
    requires Growing(g, placed, finish[k], component, stack + [u])
    requires forall p :: p in pushed <==> (p, u) in g.edges && p !in placed + component + {u}
    ensures Growing(g, placed, finish[k], component + {u}, stack + pushed)
  {
    hide Turn, ComponentOf;
    assert (stack + [u])[|stack|] == u;
    forall p | p in pushed ensures p in ComponentOf(g, finish[k]) {
      PredecessorIsMember(g, finish, k, placed, u, p);
    }
    forall w, p | w in component + {u} && (p, w) in g.edges && p !in placed
      ensures p in component + {u} || p in stack + pushed
    {
      if w != u { assert p in component || p in stack + [u]; }
    }
  }

  lemma FreshStart(g: Graph, placed: set<string>, start: string)
    requires start in g.ids
    ensures Growing(g, placed, start, {}, [start])
  {
  }

  /** The unplaced predecessors of a node. */
  method ToVisit(unresolved: set<string>, placed: set<string>, preds: seq<string>) returns (pushed: seq<string>)
    ensures forall p :: p in pushed <==> p in preds && p in unresolved && p !in placed
  {
    pushed := [];
    for i := 0 to |preds|
      invariant forall p :: p in pushed <==> p in preds[..i] && p in unresolved && p !in placed
    {
      assert preds[..i + 1] == preds[..i] + [preds[i]];
      if preds[i] in unresolved && preds[i] !in placed { pushed := pushed + [preds[i]]; }
    }
    assert preds[..|preds|] == preds;
  }

  lemma HasList(g: Graph, lists: map<string, seq<string>>, u: string)
    requires Predecessors(g, lists) && u in g.ids
    ensures u in lists
  {
  }

  lemma ListedPredecessors(g: Graph, lists: map<string, seq<string>>, u: string, placed: set<string>,
                           pushed: seq<string>)
    requires Closed(g) && Predecessors(g, lists) && u in g.ids
    requires forall p :: p in pushed <==> p in lists[u] && p in g.ids && p !in placed
    ensures forall p :: p in pushed <==> (p, u) in g.edges && p !in placed
  {
  }

  /** The inner loop of the second pass: the component of one unplaced start. */
  method Collect(unresolved: set<string>, dependencies: map<string, seq<string>>, ghost g: Graph,
                 ghost finish: seq<string>, ghost k: nat, start: string, placed0: set<string>)
    returns (component: set<string>, placed: set<string>)
    requires g.ids == unresolved && Predecessors(g, dependencies) && Turn(g, finish, k, placed0)
    requires k < |finish| && start == finish[k] && start in g.ids && start !in placed0
    ensures component == ComponentOf(g, start) && placed == placed0 + component
  {
    hide Turn, Whole, ComponentOf, Growing, Closed, Predecessors;
    component, placed := {}, placed0;
    var stack := [start];
    FreshStart(g, placed0, start);
    TurnBounds(g, finish, k, placed0);
    while stack != []
      invariant Growing(g, placed0, start, component, stack)
      invariant placed == placed0 + component && placed <= unresolved
      decreases |unresolved| - |placed|, |stack|
    {
      var u := stack[|stack| - 1];
      assert stack == stack[..|stack| - 1] + [u];
      stack := stack[..|stack| - 1];
      StackInGraph(g, placed0, start, component, stack, u);
      SubsetCardinality(placed, unresolved);
      if u in placed {
        DropPlaced(g, placed0, start, component, stack, u);
      } else {
        placed := placed + {u};
        HasList(g, dependencies, u);
        var pushed := ToVisit(unresolved, placed, dependencies[u]);
        ListedPredecessors(g, dependencies, u, placed, pushed);
        VisitKeeps(g, finish, k, placed0, component, stack, u, pushed);
        component := component + {u};
        stack := stack + pushed;
        SubsetCardinality(placed, unresolved);
      }
    }
    GrownIsComponent(g, placed0, start, component);
  }

  lemma TurnBounds(g: Graph, finish: seq<string>, k: nat, placed: set<string>)
    requires Turn(g, finish, k, placed)
    ensures Closed(g) && Whole(g, placed) && placed <= g.ids
  {
  }

  lemma StackInGraph(g: Graph, placed: set<string>, start: string, component: set<string>, rest: seq<string>, u: string)
    requires Growing(g, placed, start, component, rest + [u])
    ensures u in g.ids
  {
    assert (rest + [u])[|rest|] == u;
    assert u in ComponentOf(g, start);
  }

  lemma DropPlaced(g: Graph, placed: set<string>, start: string, component: set<string>, rest: seq<string>, u: string)
    requires Whole(g, placed) && start !in placed && start in g.ids
    requires Growing(g, placed, start, component, rest + [u]) && u in placed + component
    ensures Growing(g, placed, start, component, rest)
  {
  }

  /** Exactly the components of more than one node among the placed ones. */
  ghost predicate CyclicAmong(g: Graph, placed: set<string>, components: set<set<string>>)
  {
    forall c :: c in components <==> |c| > 1 && exists x :: x in placed && c == ComponentOf(g, x)
  }

  /** The components with more than one node: both passes. */
  method CyclicComponents(unresolved: set<string>, dependants: map<string, seq<string>>,
                          dependencies: map<string, seq<string>>, ghost g: Graph)
    returns (components: set<set<string>>)
    requires g.ids == unresolved && Closed(g) && Successors(g, dependants) && Predecessors(g, dependencies)
    ensures CyclicAmong(g, unresolved, components)
  {
    hide CyclicAmong, Whole, Finished;
    var finish := FinishOrder(unresolved, dependants, g);
    var placed: set<string> := {};
    components := {};
    NothingPlaced(g);
    FinishedNodes(g, finish);
    var k := |finish|;
    while k > 0
      invariant 0 <= k <= |finish|
      invariant Whole(g, placed) && placed <= unresolved && forall i | k <= i < |finish| :: finish[i] in placed
      invariant CyclicAmong(g, placed, components)
    {
      k := k - 1;
      if finish[k] !in placed {
        OneMoreComponent(g, placed, finish[k], components);
        var component;
        component, placed := Collect(unresolved, dependencies, g, finish, k, finish[k], placed);
        if |component| > 1 { components := components + {component}; }
      }
    }
    assert placed == unresolved;
  }

  lemma FinishedNodes(g: Graph, finish: seq<string>)
    requires Finished(g, finish)
    ensures (forall i | 0 <= i < |finish| :: finish[i] in g.ids) && forall x | x in g.ids :: x in finish
  {
  }

  lemma NothingPlaced(g: Graph)
    ensures Whole(g, {}) && CyclicAmong(g, {}, {})
  {
  }

  lemma OneMoreComponent(g: Graph, placed: set<string>, start: string, components: set<set<string>>)
    requires Whole(g, placed) && CyclicAmong(g, placed, components) && start in g.ids
    ensures var c := ComponentOf(g, start);
            && start in c && Whole(g, placed + c)
            && CyclicAmong(g, placed + c, if |c| > 1 then components + {c} else components)
  {
    var c := ComponentOf(g, start);
    ReachesSelf(g, start);
    forall x | x in c ensures ComponentOf(g, x) == c {
      forall y ensures y in ComponentOf(g, x) <==> y in c {
        if y in c { SameTransitive(g, x, start, y); }
        if y in ComponentOf(g, x) { SameTransitive(g, start, x, y); }
      }
    }
    forall x, y | x in c && y in g.ids && Same(g, x, y) ensures y in c { SameTransitive(g, start, x, y); }
    var more := if |c| > 1 then components + {c} else components;
    forall d ensures d in more <==> |d| > 1 && exists x :: x in placed + c && d == ComponentOf(g, x) {
      if d == c { assert start in placed + c; }
      if d in components { var x :| x in placed && d == ComponentOf(g, x); assert x in placed + c; }
    }
  }
}
