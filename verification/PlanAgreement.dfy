/** The application and the database order the same plan. The application compares queue entries by
    tuples of zero-padded texts and ranks transaction types with a table of its own. */
module PlanAgreement {
  import opened Wrappers
  import opened Decimal
  import opened Ledger
  import opened ManifestGraph
  import opened Schedule
  import opened Readiness
  import opened ReadinessSpec
  import RC = ReadyConsequences
  import EG = EventGraph
  import Cohort
  import CF = CohortFindings
  import C = ChildPayload
  import M = ManifestPayload
  import Sorting
  import Text

  // ---------------------------------------------------------------- the application's key

  /** Quantity restatements of one instrument; the database has no rank of its own for them. */
  predicate SameInstrument(typ: string)
  {
    typ in {"SPLIT", "REVERSE_SPLIT", "CONSOLIDATION", "BONUS_ISSUE", "STOCK_DIVIDEND"}
  }

  /** The application's rank table; of two entries for one type the later one holds. */
  function ApplicationRank(typ: string): nat
  {
    if SameInstrument(typ) then 5
    else if typ == "RIGHTS_REFUND" then 3
    else if typ in {"CASH_CONSIDERATION", "RIGHTS_SHARE_DELIVERY"} then 2
    else if typ in {"SPIN_IN", "DEMERGER_IN"} + {"RIGHTS_SUBSCRIBE", "RIGHTS_OVERSUBSCRIBE", "RIGHTS_SELL",
                                                 "RIGHTS_EXPIRE", "RIGHTS_ADJUSTMENT"} then 1
    else if typ in {"SPIN_OFF", "DEMERGER_OUT"} + {"RIGHTS_ANNOUNCE", "RIGHTS_ALLOCATE"} then 0
    else 4
  }

  /** The application's own default for a child without a hint. */
  const DEFAULT_SEQUENCE: nat := 2_147_483_647

  function DirectedNode(c: C.Child, fingerprint: string): EG.Node
  {
    EG.Node(c.id, c.deps, fingerprint,
            [Digits(ApplicationRank(c.typ), 4), Digits(if c.hint.None? then DEFAULT_SEQUENCE else c.hint.value, 10),
             if c.target.None? then "-" else c.target.value, c.role, c.id])
  }

  function DirectedNodes(cs: seq<C.Child>, prints: seq<string>): (ns: seq<EG.Node>)
    requires |prints| == |cs|
  {
    seq(|cs|, i requires 0 <= i < |cs| => DirectedNode(cs[i], prints[i]))
  }

  /** Four digits hold every rank and ten every integer column. */
  lemma Widths()
    ensures Pow10(4) == 10000 && Pow10(10) == 10000000000
  {
  }

  // ---------------------------------------------------------------- the two keys

  lemma TupleColumn(a: string, as_: seq<string>, b: string, bs: seq<string>)
    ensures EG.TupleLeq([a] + as_, [b] + bs) <==> if a != b then Text.Leq(a, b) else EG.TupleLeq(as_, bs)
  {
  }

  lemma TupleFive(a: seq<string>, b: seq<string>)
    requires |a| == 5 && |b| == 5
    ensures EG.TupleLeq(a, b) <==>
              if a[0] != b[0] then Text.Leq(a[0], b[0])
              else if a[1] != b[1] then Text.Leq(a[1], b[1])
              else if a[2] != b[2] then Text.Leq(a[2], b[2])
              else if a[3] != b[3] then Text.Leq(a[3], b[3])
              else a[4] == b[4] || Text.Leq(a[4], b[4])
  {
    hide EG.TupleLeq;
    assert a == [a[0]] + a[1..] && b == [b[0]] + b[1..];
    assert a[1..] == [a[1]] + a[2..] && b[1..] == [b[1]] + b[2..];
    assert a[2..] == [a[2]] + a[3..] && b[2..] == [b[2]] + b[3..];
    assert a[3..] == [a[3]] + a[4..] && b[3..] == [b[3]] + b[4..];
    assert a[4..] == [a[4]] + [] && b[4..] == [b[4]] + [];
    TupleColumn(a[0], a[1..], b[0], b[1..]);
    TupleColumn(a[1], a[2..], b[1], b[2..]);
    TupleColumn(a[2], a[3..], b[2], b[3..]);
    TupleColumn(a[3], a[4..], b[3], b[4..]);
    TupleColumn(a[4], [], b[4], []);
    TupleEmpty();
  }

  lemma TupleEmpty()
    ensures EG.TupleLeq([], [])
  {
  }

  /** The columns of a node row that the key reads are the child's. */
  ghost predicate Describes(n: NodeRow, c: C.Child)
  {
    n.id == c.id && n.typ == c.typ && n.role == c.role && n.hint == c.hint && n.target == c.target
  }

  /** Both tables rank alike off the restatements; on those the database's rank is the one of unknown
      types and the application's the one after it. */
  lemma RanksAgreeExactly(typ: string)
    ensures ApplicationRank(typ) == Rank(typ) <==> !SameInstrument(typ)
    ensures SameInstrument(typ) ==> Rank(typ) == 4 && ApplicationRank(typ) == 5
    ensures Rank(typ) <= 4
  {
  }

  lemma KeyColumns(x: NodeRow, c: C.Child, p: string)
    requires Describes(x, c)
    ensures var k, l := DirectedNode(c, p).key, KeyOf(x);
            && |k| == 5 && k[0] == Digits(ApplicationRank(x.typ), 4) && k[1] == Digits(l.hint, 10)
            && k[2] == l.target && k[3] == l.role && k[4] == l.id == DirectedNode(c, p).id
  {
  }

  /** Queue entries compare by the application's rank and then by the database's other columns. */
  lemma EntryMeans(x: NodeRow, y: NodeRow, c: C.Child, d: C.Child, p: string, q: string)
    requires Describes(x, c) && Describes(y, d) && NodeChecks(x) && NodeChecks(y)
    ensures EG.EntryLeq(DirectedNode(c, p), DirectedNode(d, q)) <==>
              if ApplicationRank(x.typ) != ApplicationRank(y.typ) then ApplicationRank(x.typ) < ApplicationRank(y.typ)
              else RestLeq(KeyOf(x), KeyOf(y))
  {
    RanksAgreeExactly(x.typ);
    RanksAgreeExactly(y.typ);
    Widths();
    hide Digits, EG.TupleLeq, Rank, ApplicationRank, Text.Leq, SameInstrument;
    var a, b := DirectedNode(c, p), DirectedNode(d, q);
    var k, l := KeyOf(x), KeyOf(y);
    KeyColumns(x, c, p);
    KeyColumns(y, d, q);
    DigitsOrder(ApplicationRank(x.typ), ApplicationRank(y.typ), 4);
    DigitsOrder(k.hint, l.hint, 10);
    TupleFive(a.key, b.key);
    Text.LeqReflexive(c.id);
    assert a.key == b.key <==> a.key[0] == b.key[0] && a.key[1] == b.key[1] && a.key[2] == b.key[2]
                               && a.key[3] == b.key[3] && a.key[4] == b.key[4];
  }

  /** One of the two is a restatement, the other a type without a rank, and the columns after the rank
      put the restatement first. */
  ghost predicate Inverted(x: NodeRow, y: NodeRow)
  {
    || (SameInstrument(x.typ) && !SameInstrument(y.typ) && Rank(y.typ) == 4 && RestLeq(KeyOf(x), KeyOf(y)))
    || (SameInstrument(y.typ) && !SameInstrument(x.typ) && Rank(x.typ) == 4 && !RestLeq(KeyOf(x), KeyOf(y)))
  }

  /** Queue entries and the ORDER BY compare two rows differently exactly in that case. */
  lemma KeysAgreeExactly(x: NodeRow, y: NodeRow, c: C.Child, d: C.Child, p: string, q: string)
    requires Describes(x, c) && Describes(y, d) && NodeChecks(x) && NodeChecks(y)
    ensures (EG.EntryLeq(DirectedNode(c, p), DirectedNode(d, q)) <==> KeyLeq(KeyOf(x), KeyOf(y))) <==> !Inverted(x, y)
  {
    RanksAgreeExactly(x.typ);
    RanksAgreeExactly(y.typ);
    hide EG.EntryLeq, DirectedNode, RestLeq, Rank, ApplicationRank, SameInstrument, Describes, NodeChecks;
    EntryMeans(x, y, c, d, p, q);
  }

  /** The queue, too, takes a child with a hint before one of its rank without. */
  lemma EntryHintedFirst(c: C.Child, d: C.Child, p: string, q: string)
    requires ApplicationRank(c.typ) == ApplicationRank(d.typ)
    requires c.hint.Some? && c.hint.value < 2147483647 && d.hint.None?
    ensures EG.EntryLeq(DirectedNode(c, p), DirectedNode(d, q)) && !EG.EntryLeq(DirectedNode(d, q), DirectedNode(c, p))
  {
    Widths();
    hide Digits, EG.TupleLeq, ApplicationRank, Text.Leq, SameInstrument;
    var a, b := DirectedNode(c, p), DirectedNode(d, q);
    DigitsOrder(c.hint.value, 2147483647, 10);
    DigitsOrder(2147483647, c.hint.value, 10);
    TupleFive(a.key, b.key);
    TupleFive(b.key, a.key);
    assert a.key[1] != b.key[1];
  }

  /** Two rows that differ only in type and id, one of them a split: the database runs the split first,
      by its id, the application last. */
  lemma SplitOrdersDiffer(x: NodeRow, y: NodeRow, c: C.Child, d: C.Child, p: string, q: string)
    requires Describes(x, c) && Describes(y, d) && NodeChecks(x) && NodeChecks(y)
    requires c == d.(id := c.id, typ := c.typ) && Text.Leq(c.id, d.id) && c.typ == "SPLIT" && d.typ == "FEE"
    ensures KeyLeq(KeyOf(x), KeyOf(y)) && !EG.EntryLeq(DirectedNode(c, p), DirectedNode(d, q))
  {
    hide EG.EntryLeq, DirectedNode;
    assert RestLeq(KeyOf(x), KeyOf(y));
    KeysAgreeExactly(x, y, c, d, p, q);
  }

  // ---------------------------------------------------------------- equal comparisons give equal orders

  lemma {:induction false} OrderCongruent(g: Graph, p: (string, string) -> bool, q: (string, string) -> bool,
                                            done: seq<string>)
    requires TotalOrderOn(g.ids, p) && TotalOrderOn(g.ids, q)
    requires forall a, b | a in g.ids && b in g.ids :: p(a, b) <==> q(a, b)
    ensures Extend(g, p, done) == Extend(g, q, done)
    decreases |g.ids| - |done|
  {
    if |done| < |g.ids| && ReadySet(g, done) != {} {
      var s := ReadySet(g, done);
      assert IsLeast(s, p, Least(s, p)) && IsLeast(s, q, Least(s, q));
      OrderCongruent(g, p, q, done + [Least(s, p)]);
    }
  }

  // ---------------------------------------------------------------- the theorem

  /** No governed cohort holds a quantity restatement. */
  lemma GovernedTypes(eventType: string, p: Cohort.Policy, cs: seq<C.Child>, i: nat)
    requires Cohort.PolicyOf(eventType) == Some(p) && Cohort.ShapeOk(p, cs) && i < |cs|
    ensures !SameInstrument(cs[i].typ)
  {
  }

  /** Every declared child describes its node row. */
  lemma ChildDescribed(t: Tables, k: nat, h: string -> string, cs: seq<C.Child>, i: nat) returns (n: NodeRow)
    requires ChildrenAreNodes(t, k, h, cs) && i < |cs|
    ensures n in NodesOf(t, k) && Describes(n, cs[i]) && ChildIsNode(t, h, cs[i], n)
  {
    assert HasItsNode(t, k, h, cs[i]);
    n :| n in NodesOf(t, k) && ChildIsNode(t, h, cs[i], n);
    assert cs[i].(deps := []) == NodeChild(t, n).(deps := []);
  }

  lemma DirectedDistinct(cs: seq<C.Child>, prints: seq<string>)
    requires |prints| == |cs| && Cohort.DistinctIds(cs)
    ensures EG.DistinctIds(DirectedNodes(cs, prints))
  {
  }

  lemma DirectedIds(cs: seq<C.Child>, prints: seq<string>)
    requires |prints| == |cs|
    ensures EG.Ids(DirectedNodes(cs, prints)) == Cohort.Dependencies(cs).ids
  {
    var ns := DirectedNodes(cs, prints);
    assert forall i | 0 <= i < |cs| :: ns[i].id == cs[i].id;
    forall a ensures a in EG.Ids(ns) <==> a in Cohort.Dependencies(cs).ids {
      if a in Cohort.Dependencies(cs).ids { var i :| 0 <= i < |cs| && cs[i].id == a; assert ns[i] in ns; }
    }
  }

  /** The dependencies of a stored child are distinct, other, stored children. */
  lemma StoredDependencies(t: Tables, k: nat, h: string -> string, cs: seq<C.Child>, i: nat)
    requires Inv(t) && ChildrenAreNodes(t, k, h, cs) && i < |cs|
    ensures Distinct(cs[i].deps)
    ensures forall d | d in cs[i].deps :: d != cs[i].id && d in Cohort.Dependencies(cs).ids
  {
    var n := ChildDescribed(t, k, h, cs, i);
    DependenciesArePredecessors(t, h, cs[i], n);
    RC.StoredGraphIsDeclared(t, k, h, cs);
    assert HasItsNode(t, k, h, cs[i]);
    forall d | d in cs[i].deps ensures d != cs[i].id && d in Cohort.Dependencies(cs).ids {
      DependencyIsEdge(t, k, h, cs[i], d);
      var e := EdgeRow(k, d, cs[i].id);
      assert e in t.edges && HasNode(t, k, d);
      var x :| x in t.nodes && x.manifest == k && x.id == d;
      assert d in GraphOf(t, k).ids;
    }
  }

  lemma StoredIsSound(t: Tables, k: nat, h: string -> string, cs: seq<C.Child>, prints: seq<string>)
    requires Inv(t) && ChildrenAreNodes(t, k, h, cs) && cs != [] && |prints| == |cs|
    ensures EG.Sound(DirectedNodes(cs, prints))
  {
    hide Inv, C.CanonicalText;
    var ns := DirectedNodes(cs, prints);
    DirectedDistinct(cs, prints);
    DirectedIds(cs, prints);
    hide EG.DistinctIds;
    forall x | x in ns ensures Distinct(x.deps) && x.id !in x.deps && forall d | d in x.deps :: d in EG.Ids(ns) {
      var i :| 0 <= i < |ns| && ns[i] == x;
      StoredDependencies(t, k, h, cs, i);
    }
  }

  /** On a sound declaration the resolver's graph is the declared one. */
  lemma DirectedGraph(cs: seq<C.Child>, prints: seq<string>)
    requires |prints| == |cs| && EG.Sound(DirectedNodes(cs, prints))
    ensures EG.GraphOf(DirectedNodes(cs, prints)) == Cohort.Dependencies(cs)
  {
    var ns := DirectedNodes(cs, prints);
    DirectedIds(cs, prints);
    hide EG.DistinctIds;
    var g, d := EG.GraphOf(ns), Cohort.Dependencies(cs);
    forall e ensures e in g.edges <==> e in d.edges {
      if e in g.edges {
        var x, p :| x in ns && p in EG.Present(g.ids, x) && e == (p, x.id);
        var i :| 0 <= i < |ns| && ns[i] == x;
        RC.DependencyIsDeclared(cs, cs[i], p);
      }
      if e in d.edges {
        var i, j :| 0 <= i < |cs| && 0 <= j < |cs[i].deps| && e == (cs[i].deps[j], cs[i].id);
        assert ns[i] in ns && cs[i].deps[j] in ns[i].deps;
        assert cs[i].deps[j] in EG.Present(g.ids, ns[i]);
      }
    }
    assert g.edges == d.edges;
  }

  /** The queue's comparison of two declared children is the database's. */
  lemma ComparisonsAgree(t: Tables, k: nat, h: string -> string, cs: seq<C.Child>, prints: seq<string>, i: nat, j: nat)
    requires Inv(t) && ChildrenAreNodes(t, k, h, cs) && |prints| == |cs| && i < |cs| && j < |cs|
    requires forall l | 0 <= l < |cs| :: !SameInstrument(cs[l].typ)
    ensures EG.Earlier(EG.Index(DirectedNodes(cs, prints)))(cs[i].id, cs[j].id) <==>
              Before(NodesOf(t, k))(cs[i].id, cs[j].id)
  {
    hide Inv, ChildIsNode, IdsUnique, Before, SameInstrument, KeyOf, KeyLeq, NodesOf, NodeChecks;
    hide EG.EntryLeq, EG.Index, DirectedNode, Describes, Inverted;
    var x := ChildDescribed(t, k, h, cs, i);
    var y := ChildDescribed(t, k, h, cs, j);
    StoredGraph(t, k);
    StoredChecked(t, k, x);
    StoredChecked(t, k, y);
    IdsDescribed(x, cs[i]);
    IdsDescribed(y, cs[j]);
    BeforeIs(NodesOf(t, k), x, y);
    NotInverted(x, y, cs[i], cs[j]);
    KeysAgreeExactly(x, y, cs[i], cs[j], prints[i], prints[j]);
    DirectedFound(cs, prints, i);
    DirectedFound(cs, prints, j);
  }

  lemma NotInverted(x: NodeRow, y: NodeRow, c: C.Child, d: C.Child)
    requires Describes(x, c) && Describes(y, d) && !SameInstrument(c.typ) && !SameInstrument(d.typ)
    ensures !Inverted(x, y)
  {
  }

  lemma StoredChecked(t: Tables, k: nat, n: NodeRow)
    requires Inv(t) && n in NodesOf(t, k)
    ensures NodeChecks(n)
  {
  }

  lemma IdsDescribed(n: NodeRow, c: C.Child)
    requires Describes(n, c)
    ensures n.id == c.id
  {
  }

  lemma DirectedFound(cs: seq<C.Child>, prints: seq<string>, i: nat)
    requires |prints| == |cs| && i < |cs| && Cohort.DistinctIds(cs)
    ensures var m := EG.Index(DirectedNodes(cs, prints)); cs[i].id in m && m[cs[i].id] == DirectedNode(cs[i], prints[i])
  {
    var ns := DirectedNodes(cs, prints);
    DirectedDistinct(cs, prints);
    EG.IndexHolds(ns);
    assert ns[i] in ns && ns[i].id == cs[i].id;
  }

  lemma StoredComparison(t: Tables, k: nat, h: string -> string, cs: seq<C.Child>, prints: seq<string>)
    requires Inv(t) && ChildrenAreNodes(t, k, h, cs) && |prints| == |cs|
    requires forall l | 0 <= l < |cs| :: !SameInstrument(cs[l].typ)
    ensures var m := EG.Index(DirectedNodes(cs, prints));
            forall a, b | a in GraphOf(t, k).ids && b in GraphOf(t, k).ids ::
              EG.Earlier(m)(a, b) <==> Before(NodesOf(t, k))(a, b)
  {
    hide Inv, ChildrenAreNodes, SameInstrument, GraphOf, DirectedNodes, Before, EG.Earlier, EG.Index, NodesOf;
    RC.StoredGraphIsDeclared(t, k, h, cs);
    var m := EG.Index(DirectedNodes(cs, prints));
    forall a, b | a in GraphOf(t, k).ids && b in GraphOf(t, k).ids
      ensures EG.Earlier(m)(a, b) <==> Before(NodesOf(t, k))(a, b)
    {
      var i :| 0 <= i < |cs| && cs[i].id == a;
      var j :| 0 <= j < |cs| && cs[j].id == b;
      ComparisonsAgree(t, k, h, cs, prints, i, j);
    }
  }

  lemma OnceCounted(cs: seq<C.Child>, c: C.Child)
    requires Cohort.DistinctIds(cs)
    ensures multiset(cs)[c] <= 1
  {
    if c in cs {
      var i :| 0 <= i < |cs| && cs[i] == c;
      var head, tail := cs[..i], cs[i + 1..];
      assert cs == head + [c] + tail;
      forall k | 0 <= k < |tail| ensures tail[k].id != c.id { assert tail[k] == cs[i + 1 + k]; }
      assert c !in head && c !in tail;
      assert multiset(cs) == multiset(head) + multiset{c} + multiset(tail);
    } else {
      assert c !in multiset(cs);
    }
  }

  lemma DistinctRearranged(cs: seq<C.Child>, ds: seq<C.Child>)
    requires multiset(cs) == multiset(ds) && Cohort.DistinctIds(ds)
    ensures Cohort.DistinctIds(cs)
  {
    forall i, j | 0 <= i < j < |cs| ensures cs[i].id != cs[j].id {
      assert cs[i] in multiset(cs) && cs[j] in multiset(cs);
      var a :| 0 <= a < |ds| && ds[a] == cs[i];
      var b :| 0 <= b < |ds| && ds[b] == cs[j];
      if a == b {
        Sorting.TwiceCounted(cs, i, j);
        OnceCounted(ds, cs[i]);
      } else if a < b {
        assert ds[a].id != ds[b].id;
      } else {
        assert ds[b].id != ds[a].id;
      }
    }
  }

  /** The stored rows know nothing of the order of declaration. */
  lemma RearrangedAreNodes(t: Tables, k: nat, h: string -> string, cs: seq<C.Child>, ds: seq<C.Child>)
    requires ChildrenAreNodes(t, k, h, ds) && multiset(cs) == multiset(ds)
    ensures ChildrenAreNodes(t, k, h, cs)
  {
    hide HasItsNode, NodesOf;
    assert |multiset(cs)| == |cs| && |multiset(ds)| == |ds|;
    DistinctRearranged(cs, ds);
    forall i | 0 <= i < |cs| ensures HasItsNode(t, k, h, cs[i]) {
      assert cs[i] in multiset(cs);
      var j :| 0 <= j < |ds| && ds[j] == cs[i];
    }
  }

  /** For every event whose READY evaluation the database accepts, the application's resolver, given
      the manifest's children in any order of declaration and with any fingerprints, answers with the
      very plan that was accepted. */
  lemma ResolverReturnsAcceptedPlan(t: Tables, h: string -> string, e: Evaluation, plan: seq<string>, m: M.Manifest,
                                    cs: seq<C.Child>, prints: seq<string>, answer: EG.Plan)
    requires Inv(t) && Spec(t, h, e, plan, m)
    requires multiset(cs) == multiset(m.children) && |prints| == |cs| && EG.Answers(DirectedNodes(cs, prints), answer)
    ensures answer.Valid? && EG.IdsOf(answer.order) == plan
  {
    hide Spec, Inv, ChildrenAreNodes, LeastPlan, Cohort.Governed, SameInstrument, M.AcceptForward;
    hide EG.Sound, EG.Expected, EG.Answers, DirectedNodes;
    RC.SpecHolds(t, h, e, plan, m);
    var k := e.manifest.value;
    var policy, src := RC.AcceptedIsGoverned(t.manifests[k].payload, m);
    GovernedAre(m.eventType, policy, m.children, src);
    RearrangedTypes(cs, m.children);
    RearrangedAreNodes(t, k, h, cs, m.children);
    AgreedPlan(t, k, h, cs, prints, plan);
    SoundAnswer(DirectedNodes(cs, prints), answer, plan);
  }

  lemma RearrangedTypes(cs: seq<C.Child>, ds: seq<C.Child>)
    requires multiset(cs) == multiset(ds) && ds != [] && forall l | 0 <= l < |ds| :: !SameInstrument(ds[l].typ)
    ensures cs != [] && forall l | 0 <= l < |cs| :: !SameInstrument(cs[l].typ)
  {
    hide SameInstrument;
    assert ds[0] in multiset(ds);
    forall l | 0 <= l < |cs| ensures !SameInstrument(cs[l].typ) {
      assert cs[l] in multiset(cs);
      var j :| 0 <= j < |ds| && ds[j] == cs[l];
    }
  }

  lemma SoundAnswer(ns: seq<EG.Node>, answer: EG.Plan, plan: seq<string>)
    requires EG.Sound(ns) && EG.Expected(ns) == Ok(plan) && EG.Answers(ns, answer)
    ensures answer.Valid? && EG.IdsOf(answer.order) == plan
  {
    hide CanonicalOrder, EG.IdsOf;
    EG.GraphShape(ns);
    EG.EarlierIsTotalOrder(EG.Index(ns));
    CanonicalOrderCorrect(EG.GraphOf(ns), EG.Earlier(EG.Index(ns)));
  }

  lemma GovernedAre(eventType: string, p: Cohort.Policy, cs: seq<C.Child>, src: nat)
    requires Cohort.PolicyOf(eventType) == Some(p) && Cohort.Governed(p, cs, src)
    ensures cs != [] && forall l | 0 <= l < |cs| :: !SameInstrument(cs[l].typ)
  {
  }

  lemma AgreedPlan(t: Tables, k: nat, h: string -> string, cs: seq<C.Child>, prints: seq<string>, plan: seq<string>)
    requires Inv(t) && ChildrenAreNodes(t, k, h, cs) && LeastPlan(t, k, plan) && |prints| == |cs| && cs != []
    requires forall l | 0 <= l < |cs| :: !SameInstrument(cs[l].typ)
    ensures EG.Sound(DirectedNodes(cs, prints)) && EG.Expected(DirectedNodes(cs, prints)) == Ok(plan)
  {
    hide Inv, ChildrenAreNodes, SameInstrument, GraphOf, DirectedNodes, TotalOrderOn, EG.Sound, CanonicalOrder;
    var ns, g := DirectedNodes(cs, prints), GraphOf(t, k);
    StoredIsSound(t, k, h, cs, prints);
    DirectedGraph(cs, prints);
    RC.StoredGraphIsDeclared(t, k, h, cs);
    StoredGraph(t, k);
    LeastOrderUnique(g, Before(NodesOf(t, k)), plan);
    EG.EarlierIsTotalOrder(EG.Index(ns));
    StoredComparison(t, k, h, cs, prints);
    SameOrders(g, EG.Earlier(EG.Index(ns)), Before(NodesOf(t, k)));
  }

  lemma SameOrders(g: Graph, p: (string, string) -> bool, q: (string, string) -> bool)
    requires TotalOrderOn(g.ids, p) && TotalOrderOn(g.ids, q)
    requires forall a, b | a in g.ids && b in g.ids :: p(a, b) <==> q(a, b)
    ensures CanonicalOrder(g, p) == CanonicalOrder(g, q)
  {
    OrderCongruent(g, p, q, []);
  }

  // ---------------------------------------------------------------- the two verdicts on a manifest

  lemma SoundIsDistinct(cs: seq<C.Child>, prints: seq<string>)
    requires |prints| == |cs| && EG.Sound(DirectedNodes(cs, prints))
    ensures Cohort.DistinctIds(cs) && forall i | 0 <= i < |cs| :: Distinct(cs[i].deps)
  {
    var ns := DirectedNodes(cs, prints);
    forall i, j | 0 <= i < j < |cs| ensures cs[i].id != cs[j].id { assert ns[i].id != ns[j].id; }
    forall i | 0 <= i < |cs| ensures Distinct(cs[i].deps) { assert ns[i] in ns; }
  }

  /** The application finds nothing wrong with a manifest exactly when its children form a sound and
      acyclic graph and the database's cohort assertion passes. */
  lemma NothingFoundExactly(eventType: string, cs: seq<C.Child>, prints: seq<string>, plan: EG.Plan)
    requires |prints| == |cs| && EG.Answers(DirectedNodes(cs, prints), plan)
    ensures plan.Valid? && CF.SemanticFindings(eventType, cs) == {} <==>
              && EG.Sound(DirectedNodes(cs, prints)) && !Cyclic(Cohort.Dependencies(cs))
              && Cohort.Check(eventType, cs).Ok?
  {
    hide EG.Answers, EG.Sound, CF.SemanticFindings, Cohort.Check, Cyclic, DirectedNodes;
    EG.AnswersMean(DirectedNodes(cs, prints), plan);
    if EG.Sound(DirectedNodes(cs, prints)) {
      DirectedGraph(cs, prints);
      SoundIsDistinct(cs, prints);
      CF.FindingsAgreeExactly(eventType, cs);
      CF.DistinctShown(eventType, cs);
      assert CF.NoSettlementRepeats(cs) && CF.NoTargetRepeatsSource(eventType, cs);
    }
  }
}
