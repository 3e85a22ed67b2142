/** Which manifests can become READY. A payload does in some run exactly when it is canonical, complete,
    held by the columns and planned by the application's resolver, and then only with the resolver's plan. */
module ReadyAttainable {
  import opened Wrappers
  import opened Json
  import opened Ledger
  import opened ManifestGraph
  import opened ManifestRun
  import opened DeclaredRows
  import opened Schedule
  import opened Readiness
  import opened ReadinessSpec
  import RC = ReadyConsequences
  import PA = PlanAgreement
  import EG = EventGraph
  import Cohort
  import CF = CohortFindings
  import C = ChildPayload
  import M = ManifestPayload
  import R = ManifestRoundTrip
  import Text
  import Timestamp

  /** What the column types ask of a manifest: integers within range, and an observation time that some
      timestamp is rendered as. */
  ghost predicate ColumnsFit(m: M.Manifest)
  {
    && Fits(m.version) && Fits(|m.children|) && Fits(DependencyCount(m.children)) && HintsFit(m.children)
    && Timestamp.TimestampText(m.evidence.observedAt)
  }

  // ---------------------------------------------------------------- the tables

  function TextOf(p: Json): string
  {
    match M.TextForward(p, true)
    case Ok(text) => text
    case Err(_) => ""
  }

  function EventFor(m: M.Manifest): EventRow
  {
    var scope := if m.scope.None? then M.Scope("t", "b") else m.scope.value;
    EventRow(scope.tenant, scope.legalBook, m.portfolio, m.eventId, m.group, m.parent, None, 0, 1)
  }

  function ManifestFor(h: string -> string, m: M.Manifest, p: Json): ManifestRow
  {
    var v, hash, e := m.version, h(TextOf(p)), m.evidence;
    ManifestRow(1, v, m.eventType, m.completion, e.system, e.recordId, e.revision, e.contentHash,
                Timestamp.InstantFor(e.observedAt), hash,
                if v > 1 then Some(v - 1) else None, if v > 1 then Some(Filled(|hash| + (v - 1))) else None,
                |m.children|, |EdgesFor(v, m.children)|, 0, p)
  }

  /** The event either points at the version or, as far as the trigger can tell, at none. */
  function RowsFor(h: string -> string, m: M.Manifest, p: Json, order: seq<string>, current: bool): Rows
  {
    Rows(map id | id in ChildIds(m.children) :: m.portfolio, EventFor(m), ManifestFor(h, m, p),
         NodesFor(h, m.version, order, m.children), EdgesFor(m.version, m.children),
         ObservationsFor(h, m.children), if current then Some(m.version) else None)
  }

  function ReadyFor(h: string -> string, m: M.Manifest, p: Json, order: seq<string>): Evaluation
  {
    var hash := h(TextOf(p));
    Evaluation(1, 1, Some(m.version), |m.children|, "READY", Some(hash),
               Some(h(Print(PlanDocument(hash, order)))), [], C.TextsJson(order))
  }

  // ---------------------------------------------------------------- a run leads there

  lemma EventFits(m: M.Manifest)
    requires R.Valid(m)
    ensures var e := EventFor(m);
            && EventChecks(e) && e.current.None? && e.lastSequence == 0 && Fits(e.stateVersion)
            && (m.scope.Some? ==> m.scope.value == M.Scope(e.tenant, e.legalBook))
  {
    hide Text.Normalized, R.Valid;
    IdentityNormal(m);
    DefaultScope();
  }

  lemma ManifestRowFits(h: string -> string, m: M.Manifest, p: Json)
    requires R.Valid(m) && p.Obj? && ColumnsFit(m)
    ensures var r := ManifestFor(h, m, p);
            && r.event == 1 && r.opening == 0 && r.payload == p && ManifestChecks(r)
            && (r.version > 1 ==>
                  r.previousId == Some(r.version - 1) && r.previousHash == Some(EarlierHash(r, r.version - 1)))
  {
    hide Text.Normalized, R.Valid, TextOf, Filled, EdgesFor, HintsFit, DependencyCount;
    hide Timestamp.TimestampText, Timestamp.InColumn, Timestamp.InstantFor, Timestamp.Rendered;
    IdentityNormal(m);
    StoredInstant(m.evidence.observedAt);
    EdgeRows(m.version, m.children);
  }

  lemma ManifestFits(h: string -> string, m: M.Manifest, p: Json, order: seq<string>, current: bool)
    requires M.AcceptForward(p, true) == Ok(m) && ColumnsFit(m)
    ensures ManifestStorable(RowsFor(h, m, p, order, current))
  {
    hide M.AcceptForward, R.Members, R.Valid, ColumnsFit, EventFor, ManifestFor, ManifestChecks, EventChecks;
    hide ScopeAgrees, NodesFor, EdgesFor, ObservationsFor, EarlierHash;
    R.AcceptSound(p);
    EventFits(m);
    ManifestRowFits(h, m, p);
    ScopeFits(Opened(RowsFor(h, m, p, order, current), 0), ManifestFor(h, m, p), m);
  }

  lemma ScopeFits(t: Tables, row: ManifestRow, m: M.Manifest)
    requires M.AcceptForward(row.payload, true) == Ok(m) && row.event in t.events
    requires m.scope.Some? ==> m.scope.value == M.Scope(t.events[row.event].tenant, t.events[row.event].legalBook)
    ensures ScopeAgrees(t, row)
  {
    hide M.AcceptForward, M.LegacyKeys, M.ScopedKeys;
    M.AcceptedScopeShape(row.payload);
    M.ScopeKeysTogether(row.payload.members);
  }

  lemma DefaultScope()
    ensures Text.Normalized("t") && Text.Normalized("b")
  {
  }

  lemma StoredInstant(s: string)
    requires Timestamp.TimestampText(s)
    ensures Timestamp.InColumn(Timestamp.InstantFor(s)) && Timestamp.Rendered(Timestamp.InstantFor(s)) == s
  {
    hide Timestamp.TimestampText, Timestamp.InColumn, Timestamp.Rendered, Timestamp.Read;
    Timestamp.ReadRendered(s);
  }

  lemma IdentityNormal(m: M.Manifest)
    requires R.Valid(m)
    ensures Text.Normalized(m.eventId) && Text.Normalized(m.eventType) && Text.Normalized(m.group)
    ensures Text.Normalized(m.parent) && Text.Normalized(m.portfolio) && m.version >= 1
    ensures Text.Normalized(m.evidence.recordId) && Text.Normalized(m.evidence.revision)
    ensures Text.Normalized(m.evidence.system)
    ensures m.scope.Some? ==> Text.Normalized(m.scope.value.tenant) && Text.Normalized(m.scope.value.legalBook)
  {
  }

  lemma ObservationsFit(h: string -> string, m: M.Manifest, p: Json, order: seq<string>, current: bool)
    requires Cohort.DistinctIds(m.children) && forall i | 0 <= i < |m.children| :: C.Valid(m.children[i])
    requires Fits(|m.children|)
    ensures ObservationsStorable(RowsFor(h, m, p, order, current))
  {
    hide ManifestFor, NodesFor, EdgesFor, C.CanonicalText, C.Valid, C.ToJson, Text.Normalized, Fits;
    var cs := m.children;
    forall i | 0 <= i < |cs|
      ensures cs[i].id in ChildIds(cs) && C.ToJson(cs[i]).Obj? && Text.Normalized(cs[i].id)
    {
      ChildRow(cs[i]);
    }
  }

  lemma ChildRow(c: C.Child)
    requires C.Valid(c)
    ensures C.ToJson(c).Obj? && Text.Normalized(c.id)
  {
  }

  lemma ValidChildren(p: Json, m: M.Manifest)
    requires M.AcceptForward(p, true) == Ok(m)
    ensures m.version >= 1 && forall i | 0 <= i < |m.children| :: C.Valid(m.children[i])
  {
    hide M.AcceptForward, C.Valid, R.Members;
    R.AcceptSound(p);
  }

  lemma RowsFit(h: string -> string, m: M.Manifest, p: Json, order: seq<string>, current: bool)
    requires M.AcceptForward(p, true) == Ok(m) && Ordered(m.children, order) && ColumnsFit(m)
    ensures Storable(RowsFor(h, m, p, order, current))
  {
    hide M.AcceptForward, C.Valid, ManifestStorable, NodesStorable, EdgesStorable, ObservationsStorable;
    hide Topological, HintsFit, NodesFor, EdgesFor, ObservationsFor, Timestamp.TimestampText, Timestamp.InstantFor;
    ValidChildren(p, m);
    ManifestFits(h, m, p, order, current);
    NodesFit(h, m.version, order, m.children);
    EdgesFit(h, m.version, order, m.children);
    ObservationsFit(h, m, p, order, current);
  }

  /** What the specification reads of the final tables. */
  lemma FinalHolds(h: string -> string, m: M.Manifest, p: Json, order: seq<string>, current: bool)
    requires M.AcceptForward(p, true) == Ok(m) && Ordered(m.children, order) && ColumnsFit(m)
    ensures var t := Final(RowsFor(h, m, p, order, current));
            && Reachable(t) && Inv(t) && Holds(t, m.version, h, order, m.children)
            && m.version in t.manifests && t.manifests[m.version] == ManifestFor(h, m, p)
            && 1 in t.events
            && t.events[1] == EventFor(m).(lastSequence := |m.children|,
                                           current := if current then Some(m.version) else None)
  {
    hide M.AcceptForward, Reachable, Inv, Storable, Ordered, ColumnsFit, NodesFor, EdgesFor, TextOf;
    hide Timestamp.InstantFor, C.CanonicalText, C.ToJson;
    var r := RowsFor(h, m, p, order, current);
    RowsFit(h, m, p, order, current);
    FinalReached(r);
    ReachableInv(Final(r));
    ValidChildren(p, m);
    assert m.version in Final(r).manifests;
  }

  // ---------------------------------------------------------------- the specification holds there

  /** The resolver's order of the children is the database's. */
  lemma PlanLeast(t: Tables, k: nat, h: string -> string, cs: seq<C.Child>, prints: seq<string>, order: seq<string>)
    requires Inv(t) && ChildrenAreNodes(t, k, h, cs) && |prints| == |cs|
    requires forall l | 0 <= l < |cs| :: !PA.SameInstrument(cs[l].typ)
    requires EG.Sound(PA.DirectedNodes(cs, prints)) && EG.Expected(PA.DirectedNodes(cs, prints)) == Ok(order)
    ensures LeastPlan(t, k, order)
  {
    hide Inv, ChildrenAreNodes, PA.SameInstrument, GraphOf, PA.DirectedNodes, TotalOrderOn, EG.Sound, CanonicalOrder;
    hide Topological, LexLeq, Before;
    var ns, g, leq := PA.DirectedNodes(cs, prints), GraphOf(t, k), Before(NodesOf(t, k));
    PA.DirectedGraph(cs, prints);
    RC.StoredGraphIsDeclared(t, k, h, cs);
    StoredGraph(t, k);
    EG.EarlierIsTotalOrder(EG.Index(ns));
    PA.StoredComparison(t, k, h, cs, prints);
    PA.SameOrders(g, EG.Earlier(EG.Index(ns)), leq);
    CanonicalOrderCorrect(g, leq);
    forall u | Topological(g, u) ensures LexLeq(order, u, leq) { CanonicalOrderIsLeast(g, leq, u); }
  }

  lemma SoundIsOrdered(cs: seq<C.Child>, prints: seq<string>, order: seq<string>)
    requires |prints| == |cs|
    requires EG.Sound(PA.DirectedNodes(cs, prints)) && EG.Expected(PA.DirectedNodes(cs, prints)) == Ok(order)
    ensures cs != [] && Ordered(cs, order)
  {
    hide CanonicalOrder, Topological, EG.DistinctIds, Cohort.DistinctIds;
    var ns := PA.DirectedNodes(cs, prints);
    PA.SoundIsDistinct(cs, prints);
    PA.DirectedGraph(cs, prints);
    EG.GraphShape(ns);
    EG.EarlierIsTotalOrder(EG.Index(ns));
    CanonicalOrderCorrect(EG.GraphOf(ns), EG.Earlier(EG.Index(ns)));
    forall i | 0 <= i < |cs|
      ensures cs[i].id !in cs[i].deps && forall d | d in cs[i].deps :: d in Cohort.Dependencies(cs).ids
    {
      assert ns[i] in ns;
    }
  }

  lemma SpecMet(h: string -> string, m: M.Manifest, p: Json, prints: seq<string>, order: seq<string>, current: bool)
    requires M.AcceptForward(p, true) == Ok(m) && m.completion && ColumnsFit(m) && |prints| == |m.children|
    requires EG.Sound(PA.DirectedNodes(m.children, prints))
    requires EG.Expected(PA.DirectedNodes(m.children, prints)) == Ok(order)
    ensures var t := Final(RowsFor(h, m, p, order, current));
            Reachable(t) && Inv(t) && Spec(t, h, ReadyFor(h, m, p, order), order, m)
  {
    hide *;
    var cs, k, t, e := m.children, m.version, Final(RowsFor(h, m, p, order, current)), ReadyFor(h, m, p, order);
    SoundIsOrdered(cs, prints, order);
    FinalHolds(h, m, p, order, current);
    ChildrenHeld(t, k, h, order, cs);
    var policy, src := RC.AcceptedIsGoverned(p, m);
    PA.GovernedAre(m.eventType, policy, cs, src);
    PlanLeast(t, k, h, cs, prints, order);
    PlanHeld(t, k, h, order, cs);
    ValidChildren(p, m);
    ReadyColumns(h, m, p, order);
    ObservationsHeld(t, k, h, e, order, cs);
    NodesHeldHere(t, k, h, order, cs);
    ObservedAtShown(m);
    SpecFrom(t, h, m, p, order, current);
  }

  lemma ObservedAtShown(m: M.Manifest)
    requires ColumnsFit(m)
    ensures Timestamp.TimestampText(m.evidence.observedAt)
  {
  }

  lemma ReadyColumns(h: string -> string, m: M.Manifest, p: Json, order: seq<string>)
    ensures var e := ReadyFor(h, m, p, order); e.event == 1 && e.through == |m.children|
  {
  }

  lemma NodesHeldHere(t: Tables, k: nat, h: string -> string, order: seq<string>, cs: seq<C.Child>)
    requires Holds(t, k, h, order, cs) && Ordered(cs, order)
    ensures |NodesOf(t, k)| == |cs| && EdgesOf(t, k) == EdgesFor(k, cs)
  {
    NodesHeld(t, k, h, order, cs);
  }

  lemma SpecFrom(t: Tables, h: string -> string, m: M.Manifest, p: Json, order: seq<string>, current: bool)
    requires Inv(t) && M.AcceptForward(p, true) == Ok(m) && m.completion && m.children != []
    requires Timestamp.TimestampText(m.evidence.observedAt)
    requires m.version in t.manifests && t.manifests[m.version] == ManifestFor(h, m, p) && 1 in t.events
    requires t.events[1] == EventFor(m).(lastSequence := |m.children|,
                                         current := if current then Some(m.version) else None)
    requires |NodesOf(t, m.version)| == |m.children| && EdgesOf(t, m.version) == EdgesFor(m.version, m.children)
    requires NodePlan(NodesOf(t, m.version), order) && LeastPlan(t, m.version, order)
    requires ChildrenAreNodes(t, m.version, h, m.children)
    requires CountedSpec(t, m.version, h, ReadyFor(h, m, p, order))
    ensures Spec(t, h, ReadyFor(h, m, p, order), order, m)
  {
    hide Inv, M.AcceptForward, M.TextForward, NodePlan, LeastPlan, ChildrenAreNodes, ObservationSpec, CountedSpec;
    hide EdgesFor, NodesOf, Print, PlanDocument, C.TextsJson, Filled;
    hide Timestamp.TimestampText, Timestamp.Rendered, Timestamp.InstantFor;
    StoredInstant(m.evidence.observedAt);
    M.TextWhenAccepted(p, true);
    PlanLength(NodesOf(t, m.version), order);
    CountedSpecExactly(t, m.version, h, ReadyFor(h, m, p, order));
  }

  lemma PlanLength(nodes: set<NodeRow>, plan: seq<string>)
    requires NodePlan(nodes, plan)
    ensures |plan| == |nodes|
  {
  }

  // ---------------------------------------------------------------- the theorem

  /** In these tables the payload is stored and a READY evaluation of it with this plan is accepted, while
      the event does or does not point at a current version. */
  ghost predicate ReadyIn(t: Tables, h: string -> string, e: Evaluation, p: Json, plan: seq<string>, current: bool)
  {
    && e.manifest.Some? && e.manifest.value in t.manifests && t.manifests[e.manifest.value].payload == p
    && e.ordered == C.TextsJson(plan) && e.event in t.events && t.events[e.event].current.Some? == current
    && Inv(t) && e.status == "READY" && Accepted(t, h, e)
  }

  /** Some run of guarded inserts leads there. */
  ghost predicate CanBeReady(h: string -> string, p: Json, plan: seq<string>, current: bool)
  {
    exists t, e :: Reachable(t) && ReadyIn(t, h, e, p, plan, current)
  }

  lemma Attained(h: string -> string, m: M.Manifest, p: Json, prints: seq<string>, order: seq<string>, current: bool)
    requires CollisionFree(h) && M.AcceptForward(p, true) == Ok(m) && m.completion && ColumnsFit(m)
    requires |prints| == |m.children| && EG.Sound(PA.DirectedNodes(m.children, prints))
    requires EG.Expected(PA.DirectedNodes(m.children, prints)) == Ok(order)
    ensures CanBeReady(h, p, order, current)
  {
    hide *;
    var t, e := Final(RowsFor(h, m, p, order, current)), ReadyFor(h, m, p, order);
    SpecMet(h, m, p, prints, order, current);
    ReadyComplete(t, h, e, order, m);
    SoundIsOrdered(m.children, prints, order);
    FinalHolds(h, m, p, order, current);
    AttainedIn(t, h, m, p, order, current);
    assert Reachable(t) && ReadyIn(t, h, e, p, order, current);
    ReadyWitness(t, h, e, p, order, current);
  }

  lemma AttainedIn(t: Tables, h: string -> string, m: M.Manifest, p: Json, order: seq<string>, current: bool)
    requires var e := ReadyFor(h, m, p, order); Inv(t) && e.status == "READY" && Accepted(t, h, e)
    requires m.version in t.manifests && t.manifests[m.version] == ManifestFor(h, m, p) && 1 in t.events
    requires t.events[1] == EventFor(m).(lastSequence := |m.children|,
                                         current := if current then Some(m.version) else None)
    ensures ReadyIn(t, h, ReadyFor(h, m, p, order), p, order, current)
  {
    hide Inv, Accepted, TextOf, Print, PlanDocument, C.TextsJson, EdgesFor, Filled;
  }

  lemma ReadyWitness(t: Tables, h: string -> string, e: Evaluation, p: Json, plan: seq<string>, current: bool)
    requires Reachable(t) && ReadyIn(t, h, e, p, plan, current)
    ensures CanBeReady(h, p, plan, current)
  {
    hide Reachable, ReadyIn;
  }

  /** What an accepted READY evaluation says of its payload. */
  lemma ReadyPayload(t: Tables, h: string -> string, e: Evaluation, p: Json, plan: seq<string>, current: bool)
    requires CollisionFree(h) && ReadyIn(t, h, e, p, plan, current)
    ensures M.AcceptForward(p, true).Ok?
    ensures var m := M.AcceptForward(p, true).value;
            m.completion && ColumnsFit(m) && Inv(t) && Spec(t, h, e, plan, m)
  {
    hide Inv, Accepted, CollisionFree, Spec, M.AcceptForward, C.TextsJson, ChildrenAreNodes, ColumnsFit;
    var order, m := ReadySound(t, h, e);
    RC.SpecHolds(t, h, e, order, m);
    SpecColumns(t, h, e, order, m);
    C.TextsJsonInjective(order, plan);
    StoredColumnsFit(t, h, e, plan, m);
  }

  /** Whatever is READY was read from rows whose columns held it. */
  lemma StoredColumnsFit(t: Tables, h: string -> string, e: Evaluation, plan: seq<string>, m: M.Manifest)
    requires Inv(t) && Spec(t, h, e, plan, m)
    ensures ColumnsFit(m)
  {
    hide Inv, Spec, ChildrenAreNodes, HintsFit, DependencyCount, NodesOf, EdgesOf;
    hide Timestamp.TimestampText, Timestamp.InColumn, Timestamp.Rendered, M.AcceptForward;
    RC.SpecHolds(t, h, e, plan, m);
    var k := e.manifest.value;
    SpecRow(t, h, e, plan, m);
    CheckedRow(t, k);
    StoredHintsFit(t, k, h, m.children);
    PayloadDependencyCount(t, k, h, m.children);
    Timestamp.RenderedText(t.manifests[k].observedAt);
  }

  lemma CheckedRow(t: Tables, k: nat)
    requires Inv(t) && k in t.manifests
    ensures ManifestChecks(t.manifests[k])
  {
  }

  lemma SpecRow(t: Tables, h: string -> string, e: Evaluation, plan: seq<string>, m: M.Manifest)
    requires Inv(t) && Spec(t, h, e, plan, m)
    ensures e.manifest.Some? && e.manifest.value in t.manifests
    ensures var k, row := e.manifest.value, t.manifests[e.manifest.value];
            && m.version == row.version && |m.children| == row.nodeCount && row.edgeCount == |EdgesOf(t, k)|
            && m.evidence.observedAt == Timestamp.Rendered(row.observedAt)
  {
    hide Inv, M.AcceptForward, M.TextForward, LeastPlan, ObservationSpec, HasItsNode, NodesOf, EdgesOf;
    hide Print, PlanDocument, C.TextsJson, Timestamp.Rendered;
  }

  lemma SpecColumns(t: Tables, h: string -> string, e: Evaluation, plan: seq<string>, m: M.Manifest)
    requires Inv(t) && Spec(t, h, e, plan, m)
    ensures m.completion && e.ordered == C.TextsJson(plan)
  {
    hide Inv, M.AcceptForward, M.TextForward, NodePlan, LeastPlan, ChildrenAreNodes, ObservationSpec;
    hide Print, PlanDocument, C.TextsJson;
  }

  lemma StoredHintsFit(t: Tables, k: nat, h: string -> string, cs: seq<C.Child>)
    requires Inv(t) && ChildrenAreNodes(t, k, h, cs)
    ensures HintsFit(cs)
  {
    hide Inv, ChildrenAreNodes, ChildIsNode;
    forall i | 0 <= i < |cs| ensures cs[i].hint.Some? ==> Fits(cs[i].hint.value) {
      var n := PA.ChildDescribed(t, k, h, cs, i);
      PA.StoredChecked(t, k, n);
    }
  }

  /** A payload can be READY with a plan exactly when it is canonical, complete and planned by the
      resolver, and the plan is the resolver's. A current version in the event makes no difference. */
  lemma AttainableExactly(h: string -> string, p: Json, m: M.Manifest, prints: seq<string>, answer: EG.Plan,
                          plan: seq<string>, current: bool)
    requires CollisionFree(h) && M.AcceptForward(p, true) == Ok(m)
    requires |prints| == |m.children| && EG.Answers(PA.DirectedNodes(m.children, prints), answer)
    ensures CanBeReady(h, p, plan, current) <==>
              m.completion && ColumnsFit(m) && answer.Valid? && EG.IdsOf(answer.order) == plan
  {
    hide *;
    if CanBeReady(h, p, plan, current) {
      var t, e := ReadyState(h, p, plan, current);
      ReadyPayload(t, h, e, p, plan, current);
      PA.ResolverReturnsAcceptedPlan(t, h, e, plan, m, m.children, prints, answer);
    }
    if m.completion && ColumnsFit(m) && answer.Valid? && EG.IdsOf(answer.order) == plan {
      AnswerIsExpected(PA.DirectedNodes(m.children, prints), answer);
      Attained(h, m, p, prints, plan, current);
    }
  }

  lemma ReadyState(h: string -> string, p: Json, plan: seq<string>, current: bool) returns (t: Tables, e: Evaluation)
    requires CanBeReady(h, p, plan, current)
    ensures ReadyIn(t, h, e, p, plan, current)
  {
    hide ReadyIn, Reachable;
    t, e :| Reachable(t) && ReadyIn(t, h, e, p, plan, current);
  }

  lemma AnswerIsExpected(ns: seq<EG.Node>, answer: EG.Plan)
    requires EG.Answers(ns, answer) && answer.Valid?
    ensures EG.Sound(ns) && EG.Expected(ns) == Ok(EG.IdsOf(answer.order))
  {
    hide EG.Expected, EG.IdsOf, EG.Sound, Cyclic;
  }

  /** A payload that is not canonical never becomes READY. */
  lemma MalformedNeverReady(h: string -> string, p: Json, plan: seq<string>, current: bool)
    requires CollisionFree(h) && M.AcceptForward(p, true).Err?
    ensures !CanBeReady(h, p, plan, current)
  {
    hide *;
    if CanBeReady(h, p, plan, current) {
      var t, e := ReadyState(h, p, plan, current);
      ReadyPayload(t, h, e, p, plan, current);
    }
  }

  /** Nor does a canonical one whose observation time no stored timestamp is rendered as, or one with an
      integer that its column cannot hold. */
  lemma UnfitNeverReady(h: string -> string, p: Json, m: M.Manifest, plan: seq<string>, current: bool)
    requires CollisionFree(h) && M.AcceptForward(p, true) == Ok(m) && !ColumnsFit(m)
    ensures !CanBeReady(h, p, plan, current)
  {
    hide *;
    if CanBeReady(h, p, plan, current) {
      var t, e := ReadyState(h, p, plan, current);
      ReadyPayload(t, h, e, p, plan, current);
    }
  }

  /** A manifest with normal values can be READY exactly when it is complete and the application finds
      nothing wrong with it, neither in its graph nor in its cohort; the plan is the application's. */
  lemma NothingFoundIsReady(h: string -> string, m: M.Manifest, prints: seq<string>, answer: EG.Plan,
                            plan: seq<string>, current: bool)
    requires CollisionFree(h) && R.Normal(m)
    requires |prints| == |m.children| && EG.Answers(PA.DirectedNodes(m.children, prints), answer)
    ensures CanBeReady(h, Obj(R.Members(m)), plan, current) <==>
              && m.completion && ColumnsFit(m)
              && answer.Valid? && CF.SemanticFindings(m.eventType, m.children) == {} && EG.IdsOf(answer.order) == plan
  {
    hide *;
    var p := Obj(R.Members(m));
    R.WrittenAcceptedExactly(m);
    PA.NothingFoundExactly(m.eventType, m.children, prints, answer);
    if Cohort.Check(m.eventType, m.children).Ok? {
      AttainableExactly(h, p, m, prints, answer, plan, current);
      if answer.Valid? { AnswerIsExpected(PA.DirectedNodes(m.children, prints), answer); }
      EG.AnswersMean(PA.DirectedNodes(m.children, prints), answer);
      if answer.Valid? { PA.DirectedGraph(m.children, prints); }
    } else {
      MalformedNeverReady(h, p, plan, current);
    }
  }
}
