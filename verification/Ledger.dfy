/** The corporate-action tables and the guarded inserts that are allowed to change them.
    Manifests, nodes, edges and observations are append-only; each insert is one atomic step. */
module Ledger {
  import opened Wrappers
  import opened Json
  import Text
  import Timestamp

  datatype EventRow = EventRow(
    tenant: string, legalBook: string, portfolio: string,
    eventId: string, group: string, parent: string,
    current: Option<nat>, lastSequence: nat, stateVersion: nat)

  datatype ManifestRow = ManifestRow(
    event: nat, version: nat, typ: string, completion: bool,
    system: string, recordId: string, revision: string, contentHash: string, observedAt: int,
    hash: string, previousId: Option<nat>, previousHash: Option<string>,
    nodeCount: nat, edgeCount: nat, opening: nat, payload: Json)

  datatype NodeRow = NodeRow(
    manifest: nat, id: string, typ: string, role: string, hint: Option<nat>,
    instrument: Option<string>, source: Option<string>, target: Option<string>,
    hash: string, ordinal: Option<nat>)

  datatype EdgeRow = EdgeRow(manifest: nat, predecessor: string, successor: string)

  datatype ObservationRow = ObservationRow(
    event: nat, sequence: nat, transaction: string, epoch: nat, delivery: string, hash: string, payload: Json)

  /** `transactions` maps a transaction to the portfolio that owns it. */
  datatype Tables = Tables(
    transactions: map<string, string>,
    events: map<nat, EventRow>,
    manifests: map<nat, ManifestRow>,
    nodes: set<NodeRow>,
    edges: set<EdgeRow>,
    observations: seq<ObservationRow>)

  /** The largest value of an integer column. */
  const MAX_INTEGER: nat := 2147483647

  predicate Fits(n: nat)
  {
    n <= MAX_INTEGER
  }

  // ---------------------------------------------------------------- manifest inserts

  /** The opening boundary: version 1 opens at 0, a later one at the event's last sequence. */
  predicate OpensAtBoundary(t: Tables, m: ManifestRow)
  {
    m.event in t.events && m.opening == (if m.version == 1 then 0 else t.events[m.event].lastSequence)
  }

  /** The predecessor named by id belongs to the event, is the version before, and has the named hash;
      the hash comparison is three-valued. */
  predicate ContinuesChain(t: Tables, m: ManifestRow)
  {
    m.version == 1 ||
    (&& m.previousId.Some? && m.previousId.value in t.manifests
     && t.manifests[m.previousId.value].event == m.event
     && t.manifests[m.previousId.value].version == m.version - 1
     && (m.previousHash.Some? ==> t.manifests[m.previousId.value].hash == m.previousHash.value))
  }

  const TENANT := "tenant_id"
  const LEGAL_BOOK := "legal_book_id"

  /** `payload ->> key`: NULL when the key is missing or holds JSON null. */
  function TextAt(p: Json, key: string): Option<string>
  {
    if p.Obj? && key in p.members && !p.members[key].Null? then
      Some(if p.members[key].Str? then p.members[key].s else Print(p.members[key]))
    else None
  }

  /** `left <> right` as a raising condition: unknown does not raise. */
  predicate Differs(left: Option<string>, right: string)
  {
    left.Some? && left.value != right
  }

  /** The book-scope trigger: a payload with a scope key must not contradict the event. */
  predicate ScopeAgrees(t: Tables, m: ManifestRow)
  {
    || (m.payload.Obj? && TENANT !in m.payload.members && LEGAL_BOOK !in m.payload.members)
    || (&& m.event in t.events
        && !Differs(TextAt(m.payload, TENANT), t.events[m.event].tenant)
        && !Differs(TextAt(m.payload, LEGAL_BOOK), t.events[m.event].legalBook))
  }

  /** Column types and CHECK constraints of the manifest table; an observation time is an instant. */
  predicate ManifestChecks(m: ManifestRow)
  {
    && m.version >= 1 && Fits(m.version) && Fits(m.nodeCount) && Fits(m.edgeCount) && Fits(m.opening)
    && Timestamp.InColumn(m.observedAt)
    && Text.Normalized(m.typ) && Text.Normalized(m.system) && Text.Normalized(m.recordId) && Text.Normalized(m.revision)
    && (if m.version == 1 then m.previousId.None? && m.previousHash.None?
        else m.previousId.Some? && m.previousHash.Some?)
    && m.payload.Obj?
  }

  /** Unique constraints of the manifest table within one event. */
  predicate ManifestUnique(t: Tables, m: ManifestRow)
  {
    forall k | k in t.manifests && t.manifests[k].event == m.event ::
      && t.manifests[k].version != m.version
      && t.manifests[k].hash != m.hash
      && (t.manifests[k].system, t.manifests[k].recordId, t.manifests[k].revision)
           != (m.system, m.recordId, m.revision)
  }

  predicate CanInsertManifest(t: Tables, id: nat, m: ManifestRow)
  {
    && id !in t.manifests && Fits(id)
    && OpensAtBoundary(t, m) && ContinuesChain(t, m) && ScopeAgrees(t, m)
    && ManifestChecks(m) && ManifestUnique(t, m)
  }

  // ---------------------------------------------------------------- node and edge inserts

  predicate NormalizedOption(o: Option<string>)
  {
    o.Some? ==> Text.Normalized(o.value)
  }

  predicate NodeChecks(n: NodeRow)
  {
    && (n.hint.Some? ==> Fits(n.hint.value)) && (n.ordinal.Some? ==> Fits(n.ordinal.value))
    && Text.Normalized(n.id) && Text.Normalized(n.typ) && Text.Normalized(n.role)
    && NormalizedOption(n.instrument) && NormalizedOption(n.source) && NormalizedOption(n.target)
  }

  predicate CanInsertNode(t: Tables, n: NodeRow)
  {
    && n.manifest in t.manifests && NodeChecks(n)
    && (forall x | x in t.nodes && x.manifest == n.manifest ::
          x.id != n.id && (n.ordinal.Some? ==> x.ordinal != n.ordinal))
  }

  predicate HasNode(t: Tables, manifest: nat, id: string)
  {
    exists x | x in t.nodes :: x.manifest == manifest && x.id == id
  }

  predicate CanInsertEdge(t: Tables, e: EdgeRow)
  {
    && e !in t.edges && e.predecessor != e.successor
    && HasNode(t, e.manifest, e.predecessor) && HasNode(t, e.manifest, e.successor)
  }

  // ---------------------------------------------------------------- observation inserts

  predicate SameChild(a: ObservationRow, b: ObservationRow)
  {
    a.event == b.event && a.transaction == b.transaction
  }

  /** `b` is at or before `a` in `ORDER BY epoch DESC, sequence DESC`. */
  predicate NoLaterThan(b: ObservationRow, a: ObservationRow)
  {
    b.epoch < a.epoch || (b.epoch == a.epoch && b.sequence <= a.sequence)
  }

  /** Row `k` is the latest stored observation of the same child. */
  predicate IsLatestOf(t: Tables, o: ObservationRow, k: nat)
  {
    && k < |t.observations| && SameChild(t.observations[k], o)
    && forall j | 0 <= j < |t.observations| && SameChild(t.observations[j], o) ::
         NoLaterThan(t.observations[j], t.observations[k])
  }

  /** The epoch trigger: against the latest stored observation of the child, the epoch may not
      fall, and may stay only with the same content hash. */
  predicate EpochAdvances(t: Tables, o: ObservationRow)
  {
    forall k: nat | k < |t.observations| && IsLatestOf(t, o, k) ::
      && t.observations[k].epoch <= o.epoch
      && (o.epoch == t.observations[k].epoch ==> o.hash == t.observations[k].hash)
  }

  predicate ObservationChecks(t: Tables, o: ObservationRow)
  {
    && o.sequence >= 1 && Fits(o.sequence) && Fits(o.epoch)
    && Text.Normalized(o.delivery) && Text.Normalized(o.transaction) && o.payload.Obj?
    && o.event in t.events
    && o.transaction in t.transactions && t.transactions[o.transaction] == t.events[o.event].portfolio
    && (forall k | 0 <= k < |t.observations| && t.observations[k].event == o.event ::
          t.observations[k].sequence != o.sequence && t.observations[k].delivery != o.delivery)
  }

  predicate CanInsertObservation(t: Tables, o: ObservationRow)
  {
    EpochAdvances(t, o) && ObservationChecks(t, o)
  }

  // ---------------------------------------------------------------- event rows

  predicate HasVersion(t: Tables, event: nat, version: nat)
  {
    exists k | k in t.manifests :: t.manifests[k].event == event && t.manifests[k].version == version
  }

  /** An update keeps the identity columns; the repository never lowers the observation counter. */
  predicate CanUpdateEvent(t: Tables, id: nat, e: EventRow)
  {
    && id in t.events
    && e.(current := t.events[id].current, lastSequence := t.events[id].lastSequence,
          stateVersion := t.events[id].stateVersion) == t.events[id]
    && e.lastSequence >= t.events[id].lastSequence && Fits(e.lastSequence) && Fits(e.stateVersion)
    && (e.current.Some? ==> HasVersion(t, id, e.current.value))
  }

  predicate EventChecks(e: EventRow)
  {
    && Text.Normalized(e.tenant) && Text.Normalized(e.legalBook) && Text.Normalized(e.portfolio)
    && Text.Normalized(e.eventId) && Text.Normalized(e.group) && Text.Normalized(e.parent)
  }

  /** Unique constraints of the event table. */
  predicate EventUnique(t: Tables, e: EventRow)
  {
    forall k | k in t.events ::
      && (t.events[k].portfolio, t.events[k].eventId) != (e.portfolio, e.eventId)
      && (t.events[k].portfolio, t.events[k].group, t.events[k].parent) != (e.portfolio, e.group, e.parent)
  }

  predicate CanInsertEvent(t: Tables, id: nat, e: EventRow)
  {
    && id !in t.events && Fits(id) && Fits(e.lastSequence) && Fits(e.stateVersion)
    && EventChecks(e) && EventUnique(t, e) && e.current.None?
  }

  // ---------------------------------------------------------------- steps and runs

  datatype Step =
    | InsertEvent(eventKey: nat, eventRow: EventRow)
    | UpdateEvent(eventKey: nat, eventRow: EventRow)
    | InsertManifest(manifestKey: nat, manifestRow: ManifestRow)
    | InsertNode(nodeRow: NodeRow)
    | InsertEdge(edgeRow: EdgeRow)
    | InsertObservation(observationRow: ObservationRow)

  predicate Enabled(t: Tables, s: Step)
  {
    match s
    case InsertEvent(id, e) => CanInsertEvent(t, id, e)
    case UpdateEvent(id, e) => CanUpdateEvent(t, id, e)
    case InsertManifest(id, m) => CanInsertManifest(t, id, m)
    case InsertNode(n) => CanInsertNode(t, n)
    case InsertEdge(e) => CanInsertEdge(t, e)
    case InsertObservation(o) => CanInsertObservation(t, o)
  }

  function Apply(t: Tables, s: Step): Tables
  {
    match s
    case InsertEvent(id, e) => t.(events := t.events[id := e])
    case UpdateEvent(id, e) => t.(events := t.events[id := e])
    case InsertManifest(id, m) => t.(manifests := t.manifests[id := m])
    case InsertNode(n) => t.(nodes := t.nodes + {n})
    case InsertEdge(e) => t.(edges := t.edges + {e})
    case InsertObservation(o) => t.(observations := t.observations + [o])
  }

  ghost predicate IsRun(start: Tables, steps: seq<Step>, end: Tables)
    decreases |steps|
  {
    if steps == [] then start == end
    else Enabled(start, steps[0]) && IsRun(Apply(start, steps[0]), steps[1..], end)
  }

  function Empty(transactions: map<string, string>): Tables
  {
    Tables(transactions, map[], map[], {}, {}, [])
  }

  ghost predicate Reachable(t: Tables)
  {
    exists transactions, steps :: IsRun(Empty(transactions), steps, t)
  }

  // ---------------------------------------------------------------- invariants

  /** Row `k` is version 1, or is linked by id and hash to the version before it. */
  ghost predicate Linked(t: Tables, k: nat)
    requires k in t.manifests
  {
    var m := t.manifests[k];
    && m.version >= 1
    && (m.version == 1 ==> m.previousId.None? && m.previousHash.None? && m.opening == 0)
    && (m.version > 1 ==>
          && m.previousId.Some? && m.previousHash.Some? && m.previousId.value in t.manifests
          && var p := t.manifests[m.previousId.value];
             && p.event == m.event && p.version == m.version - 1 && p.hash == m.previousHash.value
             && p.opening <= m.opening)
  }

  ghost predicate Chained(t: Tables)
  {
    && (forall k | k in t.manifests :: Linked(t, k))
    && (forall k | k in t.manifests :: t.manifests[k].event in t.events
          && t.manifests[k].opening <= t.events[t.manifests[k].event].lastSequence)
  }

  ghost predicate UniqueVersions(t: Tables)
  {
    forall j, k | j in t.manifests && k in t.manifests && j != k && t.manifests[j].event == t.manifests[k].event ::
      t.manifests[j].version != t.manifests[k].version
  }

  ghost predicate NodesKeyed(t: Tables)
  {
    && (forall x | x in t.nodes :: x.manifest in t.manifests && NodeChecks(x))
    && (forall x, y | x in t.nodes && y in t.nodes && x != y && x.manifest == y.manifest ::
          x.id != y.id && (x.ordinal.Some? ==> x.ordinal != y.ordinal))
  }

  ghost predicate EdgesClosed(t: Tables)
  {
    forall e | e in t.edges ::
      e.predecessor != e.successor && HasNode(t, e.manifest, e.predecessor) && HasNode(t, e.manifest, e.successor)
  }

  /** Within a child, later rows never have a smaller epoch, and one epoch has one content hash. */
  ghost predicate EpochsMonotone(t: Tables)
  {
    forall i, j | 0 <= i < j < |t.observations| && SameChild(t.observations[i], t.observations[j]) ::
      && t.observations[i].epoch <= t.observations[j].epoch
      && (t.observations[i].epoch == t.observations[j].epoch ==> t.observations[i].hash == t.observations[j].hash)
  }

  ghost predicate UniqueSequences(t: Tables)
  {
    && (forall i | 0 <= i < |t.observations| :: t.observations[i].sequence >= 1)
    && (forall i, j | 0 <= i < j < |t.observations| && t.observations[i].event == t.observations[j].event ::
          t.observations[i].sequence != t.observations[j].sequence)
  }

  ghost predicate ScopesAgree(t: Tables)
  {
    forall k | k in t.manifests :: ScopeAgrees(t, t.manifests[k])
  }

  ghost predicate CurrentVersions(t: Tables)
  {
    forall k | k in t.events && t.events[k].current.Some? :: HasVersion(t, k, t.events[k].current.value)
  }

  ghost predicate ManifestsChecked(t: Tables)
  {
    forall k | k in t.manifests :: ManifestChecks(t.manifests[k])
  }

  ghost predicate Inv(t: Tables)
  {
    && ManifestsChecked(t) && Chained(t) && UniqueVersions(t) && NodesKeyed(t) && EdgesClosed(t)
    && EpochsMonotone(t) && UniqueSequences(t) && ScopesAgree(t) && CurrentVersions(t)
  }

  // ---------------------------------------------------------------- every step keeps the invariant

  /** What an insert into another table leaves alone. */
  lemma ManifestFactsKept(t: Tables, u: Tables)
    requires ManifestsChecked(t) && Chained(t) && UniqueVersions(t) && ScopesAgree(t) && CurrentVersions(t)
    requires u.manifests == t.manifests && u.events == t.events
    ensures ManifestsChecked(u) && Chained(u) && UniqueVersions(u) && ScopesAgree(u) && CurrentVersions(u)
  {
    hide ManifestChecks;
  }

  lemma GraphFactsKept(t: Tables, u: Tables)
    requires NodesKeyed(t) && EdgesClosed(t)
    requires u.nodes == t.nodes && u.edges == t.edges && t.manifests.Keys <= u.manifests.Keys
    ensures NodesKeyed(u) && EdgesClosed(u)
  {
  }

  lemma HasNodeKept(t: Tables, u: Tables)
    requires t.nodes <= u.nodes
    ensures forall m, id | HasNode(t, m, id) :: HasNode(u, m, id)
  {
  }

  lemma ObservationFactsKept(t: Tables, u: Tables)
    requires EpochsMonotone(t) && UniqueSequences(t) && u.observations == t.observations
    ensures EpochsMonotone(u) && UniqueSequences(u)
  {
  }

  /** An event step never lowers a counter or changes an identity column. */
  ghost predicate EventsGrow(t: Tables, u: Tables)
  {
    forall k | k in t.events ::
      && k in u.events && t.events[k].lastSequence <= u.events[k].lastSequence
      && u.events[k].tenant == t.events[k].tenant && u.events[k].legalBook == t.events[k].legalBook
  }

  lemma EventStepChains(t: Tables, u: Tables)
    requires Chained(t) && u.manifests == t.manifests && EventsGrow(t, u)
    ensures Chained(u)
  {
  }

  lemma EventStepScopes(t: Tables, u: Tables)
    requires ScopesAgree(t) && u.manifests == t.manifests && EventsGrow(t, u)
    ensures ScopesAgree(u)
  {
  }

  lemma EventStepKeeps(t: Tables, id: nat, e: EventRow)
    requires Inv(t) && (CanInsertEvent(t, id, e) || CanUpdateEvent(t, id, e))
    ensures Inv(t.(events := t.events[id := e]))
  {
    var u := t.(events := t.events[id := e]);
    assert EventsGrow(t, u);
    EventStepChains(t, u);
    EventStepScopes(t, u);
    GraphFactsKept(t, u);
    ObservationFactsKept(t, u);
    forall k | k in u.events && u.events[k].current.Some? ensures HasVersion(u, k, u.events[k].current.value) {
      assert HasVersion(t, k, u.events[k].current.value);
    }
  }

  lemma LinkedKept(t: Tables, u: Tables, k: nat)
    requires k in t.manifests && Linked(t, k)
    requires forall j | j in t.manifests :: j in u.manifests && u.manifests[j] == t.manifests[j]
    ensures Linked(u, k)
  {
  }

  lemma HasVersionKept(t: Tables, u: Tables, event: nat, version: nat)
    requires HasVersion(t, event, version)
    requires forall j | j in t.manifests :: j in u.manifests && u.manifests[j] == t.manifests[j]
    ensures HasVersion(u, event, version)
  {
  }

  lemma ManifestStepChains(t: Tables, id: nat, m: ManifestRow)
    requires Chained(t) && CanInsertManifest(t, id, m)
    ensures Chained(t.(manifests := t.manifests[id := m]))
  {
    var u := t.(manifests := t.manifests[id := m]);
    assert Linked(u, id);
    forall k | k in u.manifests ensures Linked(u, k) {
      if k != id { LinkedKept(t, u, k); }
    }
  }

  lemma ManifestStepUnique(t: Tables, id: nat, m: ManifestRow)
    requires UniqueVersions(t) && ManifestUnique(t, m) && id !in t.manifests
    ensures UniqueVersions(t.(manifests := t.manifests[id := m]))
  {
  }

  lemma ManifestStepScopes(t: Tables, id: nat, m: ManifestRow)
    requires ScopesAgree(t) && ScopeAgrees(t, m) && id !in t.manifests
    ensures ScopesAgree(t.(manifests := t.manifests[id := m]))
  {
  }

  lemma FreshManifest(t: Tables, id: nat, m: ManifestRow)
    requires CanInsertManifest(t, id, m)
    ensures id !in t.manifests && ManifestUnique(t, m) && ScopeAgrees(t, m) && ManifestChecks(m)
  {
  }

  lemma ManifestStepKeeps(t: Tables, id: nat, m: ManifestRow)
    requires Inv(t) && CanInsertManifest(t, id, m)
    ensures Inv(t.(manifests := t.manifests[id := m]))
  {
    hide Chained, UniqueVersions, NodesKeyed, EdgesClosed, EpochsMonotone, UniqueSequences, ScopesAgree;
    hide CanInsertManifest, ManifestUnique, ScopeAgrees, ManifestChecks;
    var u := t.(manifests := t.manifests[id := m]);
    FreshManifest(t, id, m);
    ManifestStepChains(t, id, m);
    ManifestStepUnique(t, id, m);
    ManifestStepScopes(t, id, m);
    GraphFactsKept(t, u);
    ObservationFactsKept(t, u);
    forall k | k in u.events && u.events[k].current.Some? ensures HasVersion(u, k, u.events[k].current.value) {
      HasVersionKept(t, u, k, u.events[k].current.value);
    }
  }

  lemma NodeStepKeyed(t: Tables, n: NodeRow)
    requires NodesKeyed(t) && CanInsertNode(t, n)
    ensures NodesKeyed(t.(nodes := t.nodes + {n}))
  {
  }

  lemma NodeStepKeeps(t: Tables, n: NodeRow)
    requires Inv(t) && CanInsertNode(t, n)
    ensures Inv(t.(nodes := t.nodes + {n}))
  {
    hide ManifestsChecked, Chained, UniqueVersions, ScopesAgree, CurrentVersions, EpochsMonotone, UniqueSequences;
    hide NodesKeyed, CanInsertNode;
    var u := t.(nodes := t.nodes + {n});
    ManifestFactsKept(t, u);
    ObservationFactsKept(t, u);
    NodeStepKeyed(t, n);
    HasNodeKept(t, u);
  }

  lemma EdgeStepKeeps(t: Tables, e: EdgeRow)
    requires Inv(t) && CanInsertEdge(t, e)
    ensures Inv(t.(edges := t.edges + {e}))
  {
    hide ManifestsChecked, Chained, UniqueVersions, ScopesAgree, CurrentVersions, EpochsMonotone, UniqueSequences;
    var u := t.(edges := t.edges + {e});
    ManifestFactsKept(t, u);
    ObservationFactsKept(t, u);
    HasNodeKept(t, u);
  }

  /** A nonempty set of stored rows has a latest member. */
  lemma {:induction false} LatestAmong(rows: seq<ObservationRow>, candidates: set<nat>) returns (k: nat)
    requires candidates != {} && forall j | j in candidates :: j < |rows|
    ensures k in candidates && forall j | j in candidates :: NoLaterThan(rows[j], rows[k])
    decreases candidates
  {
    var a :| a in candidates;
    k := a;
    var rest := candidates - {a};
    if rest != {} {
      var b := LatestAmong(rows, rest);
      if !NoLaterThan(rows[b], rows[a]) { k := b; }
    }
    assert forall j | j in candidates :: j == a || j in rest;
  }

  /** Two rows of one child, in either storage order: one epoch has one content hash. */
  lemma OneHashPerEpoch(t: Tables, i: nat, k: nat)
    requires EpochsMonotone(t) && i < |t.observations| && k < |t.observations|
    requires SameChild(t.observations[i], t.observations[k]) && t.observations[i].epoch == t.observations[k].epoch
    ensures t.observations[i].hash == t.observations[k].hash
  {
  }

  lemma LatestOfExists(t: Tables, o: ObservationRow, i: nat) returns (k: nat)
    requires i < |t.observations| && SameChild(t.observations[i], o)
    ensures IsLatestOf(t, o, k)
  {
    var siblings := set j: nat | j < |t.observations| && SameChild(t.observations[j], o);
    assert i in siblings;
    k := LatestAmong(t.observations, siblings);
    forall j | 0 <= j < |t.observations| && SameChild(t.observations[j], o)
      ensures NoLaterThan(t.observations[j], t.observations[k])
    {
      assert j in siblings;
    }
  }

  /** Comparing with the latest row alone is enough to order the new row after all of them. */
  lemma EpochGuardCoversAll(t: Tables, o: ObservationRow, i: nat)
    requires EpochsMonotone(t) && EpochAdvances(t, o)
    requires i < |t.observations| && SameChild(t.observations[i], o)
    ensures t.observations[i].epoch <= o.epoch
    ensures t.observations[i].epoch == o.epoch ==> t.observations[i].hash == o.hash
  {
    var k := LatestOfExists(t, o, i);
    assert NoLaterThan(t.observations[i], t.observations[k]);
    if t.observations[i].epoch == t.observations[k].epoch { OneHashPerEpoch(t, i, k); }
  }

  /** The guard looks only at the latest row of the child, and that is the same as looking at all of them. */
  lemma EpochGuardExactly(t: Tables, o: ObservationRow)
    requires EpochsMonotone(t)
    ensures EpochAdvances(t, o) <==>
              forall i | 0 <= i < |t.observations| && SameChild(t.observations[i], o) ::
                && t.observations[i].epoch <= o.epoch
                && (t.observations[i].epoch == o.epoch ==> t.observations[i].hash == o.hash)
  {
    if EpochAdvances(t, o) {
      forall i | 0 <= i < |t.observations| && SameChild(t.observations[i], o)
        ensures t.observations[i].epoch <= o.epoch
        ensures t.observations[i].epoch == o.epoch ==> t.observations[i].hash == o.hash
      {
        EpochGuardCoversAll(t, o, i);
      }
    }
  }

  lemma ObservationStepKeeps(t: Tables, o: ObservationRow)
    requires Inv(t) && CanInsertObservation(t, o)
    ensures Inv(t.(observations := t.observations + [o]))
  {
    var u := t.(observations := t.observations + [o]);
    ManifestFactsKept(t, u);
    GraphFactsKept(t, u);
    forall i, j | 0 <= i < j < |u.observations| && SameChild(u.observations[i], u.observations[j])
      ensures u.observations[i].epoch <= u.observations[j].epoch
      ensures u.observations[i].epoch == u.observations[j].epoch ==> u.observations[i].hash == u.observations[j].hash
    {
      if j == |t.observations| {
        EpochGuardCoversAll(t, o, i);
      } else {
        assert SameChild(t.observations[i], t.observations[j]);
      }
    }
  }

  lemma StepKeeps(t: Tables, s: Step)
    requires Inv(t) && Enabled(t, s)
    ensures Inv(Apply(t, s))
  {
    hide Inv, CanInsertEvent, CanUpdateEvent, CanInsertManifest, CanInsertNode, CanInsertEdge, CanInsertObservation;
    match s
    case InsertEvent(id, e) => EventStepKeeps(t, id, e);
    case UpdateEvent(id, e) => EventStepKeeps(t, id, e);
    case InsertManifest(id, m) => ManifestStepKeeps(t, id, m);
    case InsertNode(n) => NodeStepKeeps(t, n);
    case InsertEdge(e) => EdgeStepKeeps(t, e);
    case InsertObservation(o) => ObservationStepKeeps(t, o);
  }

  lemma {:induction false} RunKeeps(start: Tables, steps: seq<Step>, end: Tables)
    requires Inv(start) && IsRun(start, steps, end)
    ensures Inv(end)
    decreases |steps|
  {
    if steps != [] {
      StepKeeps(start, steps[0]);
      RunKeeps(Apply(start, steps[0]), steps[1..], end);
    }
  }

  /** Every reachable state satisfies the invariant. */
  lemma ReachableInv(t: Tables)
    requires Reachable(t)
    ensures Inv(t)
  {
    var transactions, steps :| IsRun(Empty(transactions), steps, t);
    RunKeeps(Empty(transactions), steps, t);
  }
}
