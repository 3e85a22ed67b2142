/** What follows from an accepted READY evaluation across cohort policy, scheduling and book scope. */
module ReadyConsequences {
  import opened Wrappers
  import opened Json
  import opened Ledger
  import opened Authority
  import opened ManifestGraph
  import opened Schedule
  import opened Readiness
  import opened ReadinessSpec
  import Cohort
  import C = ChildPayload
  import M = ManifestPayload

  // ---------------------------------------------------------------- the stored graph is the declared graph

  lemma NodeIdIsDeclared(t: Tables, k: nat, h: string -> string, cs: seq<C.Child>)
    requires Inv(t) && ChildrenAreNodes(t, k, h, cs)
    ensures GraphOf(t, k).ids == Cohort.Dependencies(cs).ids
  {
    SameIds(t, k, h, cs);
    StoredGraph(t, k);
    assert Cohort.Dependencies(cs).ids == ChildIds(cs);
  }

  lemma DependencyIsDeclared(cs: seq<C.Child>, c: C.Child, d: string)
    requires c in cs && d in c.deps
    ensures (d, c.id) in Cohort.Dependencies(cs).edges
  {
  }

  lemma EdgeIsDeclared(t: Tables, k: nat, h: string -> string, cs: seq<C.Child>, e: EdgeRow)
    requires Inv(t) && ChildrenAreNodes(t, k, h, cs) && e in t.edges && e.manifest == k
    ensures (e.predecessor, e.successor) in Cohort.Dependencies(cs).edges
  {
    assert HasNode(t, k, e.successor);
    hide Inv, C.CanonicalText, NodeChild, ChildrenAreNodes;
    var n :| n in t.nodes && n.manifest == k && n.id == e.successor;
    var c := ItsChild(t, k, h, cs, n);
    DependenciesArePredecessors(t, h, c, n);
    assert e.predecessor in Predecessors(t, k, n.id);
    DependencyIsDeclared(cs, c, e.predecessor);
  }

  lemma DeclaredIsEdge(t: Tables, k: nat, h: string -> string, cs: seq<C.Child>, p: (string, string))
    requires ChildrenAreNodes(t, k, h, cs) && p in Cohort.Dependencies(cs).edges
    ensures p in GraphOf(t, k).edges
  {
    hide C.CanonicalText, NodeChild;
    var i, j :| 0 <= i < |cs| && 0 <= j < |cs[i].deps| && p == (cs[i].deps[j], cs[i].id);
    assert HasItsNode(t, k, h, cs[i]);
    DependencyIsEdge(t, k, h, cs[i], cs[i].deps[j]);
    var e := EdgeRow(k, p.0, p.1);
    assert e in t.edges;
  }

  /** The relational nodes and edges are exactly the graph the payload declares. */
  lemma StoredGraphIsDeclared(t: Tables, k: nat, h: string -> string, cs: seq<C.Child>)
    requires Inv(t) && ChildrenAreNodes(t, k, h, cs)
    ensures GraphOf(t, k) == Cohort.Dependencies(cs)
  {
    hide Inv, ChildrenAreNodes;
    NodeIdIsDeclared(t, k, h, cs);
    forall p ensures p in GraphOf(t, k).edges <==> p in Cohort.Dependencies(cs).edges {
      if p in GraphOf(t, k).edges {
        var e :| e in t.edges && e.manifest == k && (e.predecessor, e.successor) == p;
        EdgeIsDeclared(t, k, h, cs, e);
      }
      if p in Cohort.Dependencies(cs).edges { DeclaredIsEdge(t, k, h, cs, p); }
    }
    assert GraphOf(t, k).edges == Cohort.Dependencies(cs).edges;
  }

  // ---------------------------------------------------------------- economic order

  lemma AcceptedIsGoverned(p: Json, m: M.Manifest) returns (policy: Cohort.Policy, src: nat)
    requires M.AcceptForward(p, true) == Ok(m)
    ensures Cohort.PolicyOf(m.eventType) == Some(policy) && Cohort.Governed(policy, m.children, src)
  {
    M.AcceptedCohort(p, true);
    policy := Cohort.Check(m.eventType, m.children).value;
    Cohort.CheckGoverns(m.eventType, m.children);
    src := Cohort.SourceIndex(policy, m.children);
  }

  lemma SpecHolds(t: Tables, h: string -> string, e: Evaluation, plan: seq<string>, m: M.Manifest)
    requires Inv(t) && Spec(t, h, e, plan, m)
    ensures e.manifest.Some? && e.manifest.value in t.manifests
    ensures var k := e.manifest.value;
            && M.AcceptForward(t.manifests[k].payload, true) == Ok(m) && ChildrenAreNodes(t, k, h, m.children)
            && LeastPlan(t, k, plan) && Topological(GraphOf(t, k), plan)
  {
    hide Inv, M.AcceptForward, M.TextForward, EvidenceSpec, ObservationSpec, ChildrenAreNodes;
    hide NodePlan, Topological, LexLeq;
  }

  /** In every accepted READY plan the single source child is first, every target precedes every cash
      consideration, targets and cash precede fees and taxes, and each adjustment follows its one
      consideration, for all five event families. */
  lemma ReadyPlanIsEconomic(t: Tables, h: string -> string, e: Evaluation)
    returns (plan: seq<string>, m: M.Manifest, policy: Cohort.Policy, src: nat)
    requires Inv(t) && CollisionFree(h) && e.status == "READY" && Accepted(t, h, e)
    ensures Spec(t, h, e, plan, m)
    ensures Cohort.PolicyOf(m.eventType) == Some(policy)
    ensures src < |m.children| && m.children[src].typ == policy.sourceType
    ensures Cohort.EconomicOrder(policy, m.children, src, plan)
  {
    hide Accepted, Inv, CollisionFree, Spec, M.AcceptForward, ChildrenAreNodes, GraphOf;
    hide Cohort.EconomicOrder, Cohort.Dependencies;
    plan, m := ReadySound(t, h, e);
    SpecHolds(t, h, e, plan, m);
    var k := e.manifest.value;
    policy, src := AcceptedIsGoverned(t.manifests[k].payload, m);
    assert src in Cohort.OfType(m.children, policy.sourceType);
    StoredGraphIsDeclared(t, k, h, m.children);
    Cohort.GovernedPlanOrder(policy, m.children, src, plan);
  }

  // ---------------------------------------------------------------- book scope

  /** `payload ->> key` is the text of a string, the JSON of any other value, and NULL of a null. */
  lemma TextAtMeans(p: Json, key: string)
    requires p.Obj?
    ensures TextAt(p, key) == None <==> key !in p.members || p.members[key] == Null
    ensures TextAt(p, key) != None ==>
              var v, text := p.members[key], TextAt(p, key).value;
              if v.Str? then v == Str(text) else ReadValue(text) == Some((v, ""))
  {
    if key in p.members {
      var v := p.members[key];
      ReadValueRoundTrip(v, "");
      assert Print(v) + "" == Print(v);
    }
  }

  /** The payload has no scope, or has its event's tenant and legal book. */
  ghost predicate InEventScope(t: Tables, row: ManifestRow)
  {
    && row.payload.Obj?
    && var p := row.payload.members;
    || M.LegacyKeys(p)
    || (M.ScopedKeys(p) && row.event in t.events
        && p[M.TENANT] == Str(t.events[row.event].tenant) && p[M.LEGAL_BOOK] == Str(t.events[row.event].legalBook))
  }

  lemma AcceptedScope(t: Tables, row: ManifestRow)
    requires row.event in t.events && ScopeAgrees(t, row) && M.AcceptForward(row.payload, true).Ok?
    ensures InEventScope(t, row)
  {
  }

  lemma RowScoped(t: Tables, k: nat)
    requires Inv(t) && k in t.manifests
    ensures t.manifests[k].event in t.events && ScopeAgrees(t, t.manifests[k])
  {
    assert Linked(t, k);
  }

  /** Every manifest that reaches READY is legacy-shaped, or carries its event's tenant and legal book. */
  lemma ReadyScope(t: Tables, h: string -> string, e: Evaluation)
    requires Inv(t) && e.status == "READY" && Accepted(t, h, e)
    ensures e.manifest.Some? && e.manifest.value in t.manifests && InEventScope(t, t.manifests[e.manifest.value])
  {
    hide M.AcceptForward, M.TextForward, PlanIsCanonical, EdgesMatch, CountersMatch, ObservationsMatch, Checks;
    hide PayloadMatches, HashesMatch, InEventScope;
    var row := t.manifests[e.manifest.value];
    M.TextWhenAccepted(row.payload, true);
    RowScoped(t, e.manifest.value);
    AcceptedScope(t, row);
  }

  /** A scope with one key, or with a null or non-text value, can pass the insert trigger's
      three-valued comparison, but the canonical shape check refuses it. */
  lemma PartialScopeRefused(t: Tables, row: ManifestRow)
    requires row.payload.Obj?
    requires var p := row.payload.members;
             || (M.TENANT in p && M.LEGAL_BOOK !in p) || (M.TENANT !in p && M.LEGAL_BOOK in p)
             || (M.TENANT in p && !p[M.TENANT].Str?) || (M.LEGAL_BOOK in p && !p[M.LEGAL_BOOK].Str?)
    ensures M.AcceptForward(row.payload, true).Err?
    ensures row.event in t.events && TextAt(row.payload, M.TENANT) in {None, Some(t.events[row.event].tenant)}
            && TextAt(row.payload, M.LEGAL_BOOK) in {None, Some(t.events[row.event].legalBook)}
            ==> ScopeAgrees(t, row)
  {
    M.ScopeKeysTogether(row.payload.members);
  }

  // ---------------------------------------------------------------- staleness

  /** An accepted READY evaluation names the event's current manifest version exactly when the event has one. */
  lemma ReadyCurrentExactly(t: Tables, h: string -> string, e: Evaluation)
    requires Inv(t) && e.status == "READY" && Accepted(t, h, e)
    ensures e.manifest.Some? && e.manifest.value in t.manifests && e.event in t.events
    ensures t.events[e.event].current == Some(t.manifests[e.manifest.value].version)
            <==> t.events[e.event].current.Some?
  {
    hide Inv, PlanIsCanonical, EdgesMatch, ManifestMatches, ObservationsMatch, Checks;
    EventStored(t, e.manifest.value);
  }

  /** An evaluation that was READY is refused as soon as an observation or any other change has moved the
      event's counters. */
  lemma StaleRefused(t: Tables, h: string -> string, e: Evaluation)
    requires Inv(t) && CollisionFree(h) && e.status == "READY" && e.event in t.events
    requires e.through != t.events[e.event].lastSequence || e.stateVersion != t.events[e.event].stateVersion
    ensures !Accepted(t, h, e)
  {
    hide Accepted, Inv, CollisionFree, ManifestSpec, ObservationSpec, PlanSpec;
    if Accepted(t, h, e) { var plan, m := ReadySound(t, h, e); }
  }

  /** No stored row of the event up to its last sequence that counts for the node supersedes what the node was
      matched with: none has a higher epoch, and one of the same epoch has the node's hash. */
  lemma ReadyNotSuperseded(t: Tables, h: string -> string, e: Evaluation, n: NodeRow, j: nat)
    requires Inv(t) && CollisionFree(h) && e.status == "READY" && Accepted(t, h, e)
    requires e.manifest.Some? && e.manifest.value in t.manifests && n in NodesOf(t, e.manifest.value)
    requires j < |t.observations| && t.observations[j].event == e.event && t.observations[j].transaction == n.id
    requires e.event in t.events && t.observations[j].sequence <= t.events[e.event].lastSequence
    requires AfterOpening(t, e.manifest.value, n.id, t.observations[j].sequence)
    ensures exists i: nat | i < |t.observations| ::
              && t.observations[i].event == e.event && t.observations[i].transaction == n.id
              && ObservationIsNode(t, h, t.observations[i], n) && t.observations[j].epoch <= t.observations[i].epoch
              && (t.observations[j].epoch == t.observations[i].epoch ==> t.observations[j].hash == n.hash)
  {
    hide Accepted, CollisionFree, Inv, Spec, StateSpec, NodeSeen, Counts, AfterOpening, ObservationIsNode, NodesOf;
    var plan, m := ReadySound(t, h, e);
    var k := e.manifest.value;
    SpecState(t, h, e, plan, m);
    NodeIsSeen(t, k, h, e, n);
    RowCounts(t, k, e.event, j);
    var i := SeenRow(t, k, h, e.event, n, j);
  }

  lemma SpecState(t: Tables, h: string -> string, e: Evaluation, plan: seq<string>, m: M.Manifest)
    requires Inv(t) && Spec(t, h, e, plan, m)
    ensures Chained(t) && EpochsMonotone(t)
    ensures e.manifest.Some? && e.manifest.value in t.manifests && StateSpec(t, e.manifest.value, h, e)
  {
    hide ManifestSpec, PlanSpec, StateSpec, Chained, EpochsMonotone;
  }

  lemma NodeIsSeen(t: Tables, k: nat, h: string -> string, e: Evaluation, n: NodeRow)
    requires Chained(t) && k in t.manifests && StateSpec(t, k, h, e) && n in NodesOf(t, k)
    ensures e.event in t.events && NodeSeen(t, k, h, e.event, n)
  {
    hide Chained, NodeSeen, Counts;
  }

  lemma RowCounts(t: Tables, k: nat, event: nat, j: nat)
    requires Chained(t) && k in t.manifests && event in t.events && j < |t.observations|
    requires t.observations[j].event == event && t.observations[j].sequence <= t.events[event].lastSequence
    requires AfterOpening(t, k, t.observations[j].transaction, t.observations[j].sequence)
    ensures Counts(t, k, event, j)
  {
    hide Chained, AfterOpening;
  }

  lemma SeenRow(t: Tables, k: nat, h: string -> string, event: nat, n: NodeRow, j: nat) returns (i: nat)
    requires Chained(t) && EpochsMonotone(t) && k in t.manifests && event in t.events && NodeSeen(t, k, h, event, n)
    requires j < |t.observations| && Counts(t, k, event, j) && t.observations[j].transaction == n.id
    ensures && i < |t.observations| && t.observations[i].event == event && t.observations[i].transaction == n.id
            && ObservationIsNode(t, h, t.observations[i], n) && t.observations[j].epoch <= t.observations[i].epoch
            && (t.observations[j].epoch == t.observations[i].epoch ==> t.observations[j].hash == n.hash)
  {
    hide Chained, EpochsMonotone, AfterOpening, ObservationIsNode;
    i :| && i < |t.observations| && Counts(t, k, event, i) && t.observations[i].transaction == n.id
         && ObservationIsNode(t, h, t.observations[i], n) && t.observations[j].epoch <= t.observations[i].epoch;
    MatchedHash(t, h, t.observations[i], n);
    if t.observations[j].epoch == t.observations[i].epoch { OneHashPerEpoch(t, j, i); }
  }

  lemma MatchedHash(t: Tables, h: string -> string, o: ObservationRow, n: NodeRow)
    requires ObservationIsNode(t, h, o, n)
    ensures o.hash == n.hash
  {
  }

  /** Which columns an accepted evaluation of any status has. */
  lemma AcceptedColumns(t: Tables, h: string -> string, e: Evaluation)
    requires Inv(t) && Accepted(t, h, e)
    ensures e.status in {"AWAITING_MANIFEST", "AWAITING_COMPLETION", "AWAITING_CHILDREN", "INVALID", "READY"}
    ensures e.manifest == None <==> e.status == "AWAITING_MANIFEST"
    ensures e.manifestHash == None <==> e.status == "AWAITING_MANIFEST"
    ensures e.planHash != None <==> e.status == "READY"
    ensures e.ordered.Arr? && (e.ordered.items != [] <==> e.status == "READY")
    ensures e.stateVersion >= 1 && (e.status == "READY" ==> e.findings == [])
  {
    hide Inv, TriggerPasses;
  }

  /** Outside READY the columns alone decide. */
  lemma NotReadyExactly(t: Tables, h: string -> string, e: Evaluation)
    requires Inv(t) && e.status in {"AWAITING_COMPLETION", "AWAITING_CHILDREN", "INVALID", "AWAITING_MANIFEST"}
    ensures Accepted(t, h, e) <==>
              && e.stateVersion > 0 && e.ordered == Arr([]) && e.planHash == None
              && (e.manifest == None <==> e.status == "AWAITING_MANIFEST")
              && (e.manifestHash == None <==> e.status == "AWAITING_MANIFEST")
  {
    hide Inv;
  }

  lemma EventStored(t: Tables, k: nat)
    requires Inv(t)
    ensures k in t.manifests ==> t.manifests[k].event in t.events
  {
    if k in t.manifests { assert Linked(t, k); }
  }
}
