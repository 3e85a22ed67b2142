/** The trigger that admits a READY evaluation, written with the counts it computes. */
module Readiness {
  import opened Wrappers
  import opened Json
  import opened Ledger
  import opened Authority
  import opened ManifestGraph
  import opened Schedule
  import C = ChildPayload
  import M = ManifestPayload
  import Timestamp

  datatype Evaluation = Evaluation(
    event: nat, stateVersion: nat, manifest: Option<nat>, through: nat, status: string,
    manifestHash: Option<string>, planHash: Option<string>, findings: seq<Json>, ordered: Json)

  // ---------------------------------------------------------------- node order

  ghost predicate OrdinalsUnique(nodes: set<NodeRow>)
  {
    forall a, b | a in nodes && b in nodes && a.ordinal.Some? && a.ordinal == b.ordinal :: a == b
  }

  function Resolved(nodes: set<NodeRow>): set<NodeRow>
  {
    set n | n in nodes && n.ordinal.Some?
  }

  function Ordinals(nodes: set<NodeRow>): set<nat>
  {
    set n | n in nodes && n.ordinal.Some? :: n.ordinal.value
  }

  ghost predicate MinimumIs(s: set<nat>, m: nat)
  {
    m in s && forall x | x in s :: m <= x
  }

  ghost predicate MaximumIs(s: set<nat>, m: nat)
  {
    m in s && forall x | x in s :: x <= m
  }

  ghost predicate FirstByOrdinal(nodes: set<NodeRow>, n: NodeRow)
  {
    n in nodes && n.ordinal.Some? && forall x | x in nodes && x.ordinal.Some? :: n.ordinal.value <= x.ordinal.value
  }

  lemma {:induction false} FirstExists(nodes: set<NodeRow>)
    requires Resolved(nodes) != {}
    ensures exists n :: FirstByOrdinal(nodes, n)
    decreases |nodes|
  {
    var a :| a in nodes && a.ordinal.Some? by { var r :| r in Resolved(nodes); }
    var rest := nodes - {a};
    if Resolved(rest) == {} {
      assert forall x | x in nodes && x.ordinal.Some? :: x == a || x in Resolved(rest);
      assert FirstByOrdinal(nodes, a);
    } else {
      FirstExists(rest);
      var b :| FirstByOrdinal(rest, b);
      if a.ordinal.value <= b.ordinal.value {
        assert FirstByOrdinal(nodes, a);
      } else {
        assert FirstByOrdinal(nodes, b);
      }
    }
  }

  /** `jsonb_agg(transaction_id ORDER BY resolved_execution_ordinal)`: unresolved nodes come last. */
  ghost function ExpectedOrder(nodes: set<NodeRow>): seq<string>
    decreases |nodes|
  {
    if Resolved(nodes) == {} then SortedKeys(Ids(nodes))
    else
      FirstExists(nodes);
      var n :| FirstByOrdinal(nodes, n);
      [n.id] + ExpectedOrder(nodes - {n})
  }

  // ---------------------------------------------------------------- the trigger, block by block

  /** Block 1: the manifest belongs to the event and the plan lists its nodes by ordinal. */
  ghost predicate PlanMatchesNodes(t: Tables, e: Evaluation)
  {
    && e.manifest.Some? && e.manifest.value in t.manifests && t.manifests[e.manifest.value].event == e.event
    && var nodes := NodesOf(t, e.manifest.value);
    && |nodes| != 0 && |nodes| == t.manifests[e.manifest.value].nodeCount && |Resolved(nodes)| == |nodes|
    && MinimumIs(Ordinals(nodes), 0) && MaximumIs(Ordinals(nodes), |nodes| - 1)
    && e.ordered == C.TextsJson(ExpectedOrder(nodes))
  }

  /** Block 2: that order is the canonical execution order. */
  ghost predicate PlanIsCanonical(t: Tables, k: nat)
    requires Inv(t)
  {
    StoredGraph(t, k);
    CanonicalOrder(GraphOf(t, k), Before(NodesOf(t, k))) == Ok(ExpectedOrder(NodesOf(t, k)))
  }

  function InvalidEdges(t: Tables, k: nat): set<EdgeRow>
  {
    set e | e in EdgesOf(t, k) &&
            exists a, b | a in NodesOf(t, k) && b in NodesOf(t, k) ::
              && a.id == e.predecessor && b.id == e.successor
              && a.ordinal.Some? && b.ordinal.Some? && a.ordinal.value >= b.ordinal.value
  }

  /** Block 3: edge count and direction. */
  predicate EdgesMatch(t: Tables, k: nat)
    requires k in t.manifests
  {
    |EdgesOf(t, k)| == t.manifests[k].edgeCount && |InvalidEdges(t, k)| == 0
  }

  /** Block 4, identity part: the payload repeats the relational columns. */
  predicate PayloadMatchesRow(event: EventRow, row: ManifestRow, m: M.Manifest)
  {
    && m.eventId == event.eventId && m.portfolio == event.portfolio
    && m.group == event.group && m.parent == event.parent
    && m.eventType == row.typ && m.version == row.version && m.completion == row.completion
    && m.evidence == M.Evidence(Timestamp.Rendered(row.observedAt), row.contentHash, row.recordId, row.revision,
                                row.system)
  }

  /** The left join on the node: it exists, and its hash is that of the child and of the node read back. */
  ghost predicate ChildMatches(t: Tables, k: nat, h: string -> string, c: C.Child)
  {
    exists n | n in NodesOf(t, k) && n.id == c.id ::
      h(C.CanonicalText(c)) == n.hash && h(C.CanonicalText(NodeChild(t, n))) == n.hash
  }

  function ChildIds(cs: seq<C.Child>): set<string>
  {
    set i | 0 <= i < |cs| :: cs[i].id
  }

  ghost function MismatchedChildren(t: Tables, k: nat, h: string -> string, cs: seq<C.Child>): set<nat>
  {
    set i: nat | i < |cs| && !ChildMatches(t, k, h, cs[i])
  }

  /** `count(*)` over the children joined with their dependencies. */
  function DependencyCount(cs: seq<C.Child>): nat
  {
    if cs == [] then 0 else DependencyCount(cs[..|cs| - 1]) + |cs[|cs| - 1].deps|
  }

  function MismatchedDependencies(t: Tables, k: nat, cs: seq<C.Child>): set<(nat, nat)>
  {
    set i: nat, j: nat | i < |cs| && j < |cs[i].deps| && EdgeRow(k, cs[i].deps[j], cs[i].id) !in t.edges :: (i, j)
  }

  /** Block 4: payload children and dependencies against nodes and edges, by counting. */
  ghost predicate PayloadMatches(t: Tables, k: nat, h: string -> string, m: M.Manifest)
    requires k in t.manifests && t.manifests[k].event in t.events
  {
    var row := t.manifests[k];
    && PayloadMatchesRow(t.events[row.event], row, m)
    && |m.children| == row.nodeCount && |ChildIds(m.children)| == row.nodeCount
    && |MismatchedChildren(t, k, h, m.children)| == 0
    && DependencyCount(m.children) == row.edgeCount
    && |MismatchedDependencies(t, k, m.children)| == 0
  }

  /** The execution-plan document whose hash is stored. */
  function PlanDocument(manifestHash: string, order: seq<string>): Json
  {
    Obj(map["canonical_payload_version" := Num(1, 0), "manifest_content_hash" := Str(manifestHash),
            "ordered_transaction_ids" := C.TextsJson(order)])
  }

  /** Blocks 5 and 6: content hashes and completion; a NULL in the new row compares as unknown. */
  ghost predicate HashesMatch(t: Tables, k: nat, h: string -> string, e: Evaluation, text: string)
    requires k in t.manifests
  {
    && !Differs(e.manifestHash, t.manifests[k].hash)
    && t.manifests[k].hash == h(text)
    && t.manifests[k].completion
    && !Differs(e.planHash, h(Print(PlanDocument(t.manifests[k].hash, ExpectedOrder(NodesOf(t, k))))))
  }

  /** Block 7: staleness; an event without a current manifest version compares as unknown. */
  predicate CountersMatch(t: Tables, k: nat, e: Evaluation)
    requires k in t.manifests && e.event in t.events
  {
    && e.through == t.events[e.event].lastSequence
    && e.stateVersion == t.events[e.event].stateVersion
    && (t.events[e.event].current.Some? ==> t.manifests[k].version == t.events[e.event].current.value)
  }

  /** The child payload function raises on any counted row it cannot accept. */
  predicate CountedPayloadsAccepted(t: Tables, k: nat, e: Evaluation)
    requires Chained(t)
  {
    forall i | 0 <= i < |t.observations| && Counted(t, e.event, k, e.through, i) ::
      C.Accept(t.observations[i].payload).Ok?
  }

  predicate IsLatest(t: Tables, k: nat, e: Evaluation, tx: string, i: nat)
    requires Chained(t)
  {
    i < |t.observations| && IsLatestCounted(t, e.event, k, e.through, tx, i)
  }

  ghost predicate RowMatches(o: ObservationRow, h: string -> string, hash: string)
  {
    o.hash == hash && C.Accept(o.payload).Ok? && h(C.CanonicalText(C.Accept(o.payload).value)) == o.hash
  }

  function ObservedNodes(t: Tables, k: nat, e: Evaluation): set<NodeRow>
    requires Chained(t)
  {
    set n | n in NodesOf(t, k) && exists i: nat | i < |t.observations| :: IsLatest(t, k, e, n.id, i)
  }

  ghost function MismatchedNodes(t: Tables, k: nat, h: string -> string, e: Evaluation): set<NodeRow>
    requires Chained(t)
  {
    set n | n in NodesOf(t, k) &&
            !exists i: nat | i < |t.observations| ::
               IsLatest(t, k, e, n.id, i) && RowMatches(t.observations[i], h, n.hash)
  }

  function UnexpectedObservations(t: Tables, k: nat, e: Evaluation): set<nat>
    requires Chained(t)
  {
    set i: nat | i < |t.observations| && IsLatest(t, k, e, t.observations[i].transaction, i)
                 && !HasNode(t, k, t.observations[i].transaction)
  }

  /** Block 8: latest counted observations against nodes, by counting. */
  ghost predicate ObservationsMatch(t: Tables, k: nat, h: string -> string, e: Evaluation)
    requires Chained(t) && k in t.manifests
  {
    && CountedPayloadsAccepted(t, k, e)
    && |ObservedNodes(t, k, e)| == t.manifests[k].nodeCount
    && |MismatchedNodes(t, k, h, e)| == 0
    && |UnexpectedObservations(t, k, e)| == 0
  }

  /** The payload is canonical, and its rows and hashes are the stored ones. */
  ghost predicate ManifestMatches(t: Tables, k: nat, h: string -> string, e: Evaluation)
    requires Inv(t) && k in t.manifests
  {
    var text, accepted := M.TextForward(t.manifests[k].payload, true), M.AcceptForward(t.manifests[k].payload, true);
    text.Ok? && PayloadMatches(t, k, h, accepted.value) && HashesMatch(t, k, h, e, text.value)
  }

  ghost predicate TriggerPasses(t: Tables, h: string -> string, e: Evaluation)
    requires Inv(t)
  {
    e.status != "READY" ||
    (&& PlanMatchesNodes(t, e)
     && var k := e.manifest.value;
     && PlanIsCanonical(t, k)
     && EdgesMatch(t, k) && ManifestMatches(t, k, h, e)
     && CountersMatch(t, k, e)
     && ObservationsMatch(t, k, h, e))
  }

  /** CHECK constraints of the evaluation table. */
  predicate Checks(e: Evaluation)
  {
    && e.stateVersion >= 1
    && e.status in {"AWAITING_MANIFEST", "AWAITING_COMPLETION", "AWAITING_CHILDREN", "INVALID", "READY"}
    && e.ordered.Arr?
    && (if e.manifest.None? then e.status == "AWAITING_MANIFEST" && e.manifestHash.None?
        else e.status != "AWAITING_MANIFEST" && e.manifestHash.Some?)
    && (if e.status == "READY" then e.planHash.Some? && e.findings == [] && e.ordered.items != []
        else e.planHash.None? && e.ordered.items == [])
  }

  /** The insert succeeds: trigger and checks together. */
  ghost predicate Accepted(t: Tables, h: string -> string, e: Evaluation)
    requires Inv(t)
  {
    TriggerPasses(t, h, e) && Checks(e)
  }
}
