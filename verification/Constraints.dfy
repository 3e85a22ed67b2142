/** The event-graph tables' declared constraints, and the proof that the guarded statements are exactly those
    that keep them. */
module Constraints {
  import opened Wrappers
  import opened Json
  import opened Ledger
  import Text
  import Timestamp

  const MAX: nat := 0x7fff_ffff

  // ---------------------------------------------------------------- the constraints, table by table

  /** `value = btrim(value) AND value <> ''`, of a text a column can hold. */
  predicate Neat(s: string)
  {
    |s| >= 1 && s[0] != ' ' && s[|s| - 1] != ' ' && forall i | 0 <= i < |s| :: s[i] as int != 0
  }

  predicate NeatOrNull(o: Option<string>)
  {
    o == None || Neat(o.value)
  }

  ghost predicate EventOk(id: nat, e: EventRow, manifests: map<nat, ManifestRow>)
  {
    && id <= MAX && e.lastSequence <= MAX && e.stateVersion <= MAX
    && Neat(e.tenant) && Neat(e.legalBook) && Neat(e.portfolio) && Neat(e.eventId) && Neat(e.group) && Neat(e.parent)
    && (e.current == None
        || exists k :: k in manifests && manifests[k].event == id && manifests[k].version == e.current.value)
  }

  ghost predicate EventsApart(a: EventRow, b: EventRow)
  {
    a.portfolio != b.portfolio || (a.eventId != b.eventId && (a.group != b.group || a.parent != b.parent))
  }

  ghost predicate EventsOk(events: map<nat, EventRow>, manifests: map<nat, ManifestRow>)
  {
    && (forall id | id in events :: EventOk(id, events[id], manifests))
    && (forall i, j | i in events && j in events && i != j :: EventsApart(events[i], events[j]))
  }

  /** Version 1 has no predecessor; a later one names, by id and hash, the version before of its event. */
  ghost predicate ChainOk(m: ManifestRow, manifests: map<nat, ManifestRow>)
  {
    if m.version <= 1 then m.version == 1 && m.previousId == None && m.previousHash == None
    else
      && m.previousId.Some? && m.previousId.value in manifests
      && var p := manifests[m.previousId.value];
         p.event == m.event && p.version + 1 == m.version && m.previousHash == Some(p.hash)
  }

  ghost predicate ManifestOk(id: nat, m: ManifestRow, manifests: map<nat, ManifestRow>, events: map<nat, EventRow>)
  {
    && id <= MAX && m.version <= MAX && m.nodeCount <= MAX && m.edgeCount <= MAX && m.opening <= MAX
    && Neat(m.typ) && Neat(m.system) && Neat(m.recordId) && Neat(m.revision)
    && Timestamp.InColumn(m.observedAt) && m.payload.Obj?
    && m.event in events && ChainOk(m, manifests)
    && TextAt(m.payload, "tenant_id") in {None, Some(events[m.event].tenant)}
    && TextAt(m.payload, "legal_book_id") in {None, Some(events[m.event].legalBook)}
  }

  ghost predicate ManifestsApart(a: ManifestRow, b: ManifestRow)
  {
    a.event != b.event
    || (&& a.version != b.version && a.hash != b.hash
        && (a.system != b.system || a.recordId != b.recordId || a.revision != b.revision))
  }

  ghost predicate ManifestsOk(manifests: map<nat, ManifestRow>, events: map<nat, EventRow>)
  {
    && (forall id | id in manifests :: ManifestOk(id, manifests[id], manifests, events))
    && (forall i, j | i in manifests && j in manifests && i != j :: ManifestsApart(manifests[i], manifests[j]))
  }

  ghost predicate NodeOk(n: NodeRow, manifests: map<nat, ManifestRow>)
  {
    && n.manifest in manifests && Neat(n.id) && Neat(n.typ) && Neat(n.role)
    && NeatOrNull(n.instrument) && NeatOrNull(n.source) && NeatOrNull(n.target)
    && (n.hint == None || n.hint.value <= MAX) && (n.ordinal == None || n.ordinal.value <= MAX)
  }

  ghost predicate NodesApart(a: NodeRow, b: NodeRow)
  {
    a.manifest != b.manifest || (a.id != b.id && (a.ordinal == None || b.ordinal == None || a.ordinal != b.ordinal))
  }

  ghost predicate NodesOk(nodes: set<NodeRow>, manifests: map<nat, ManifestRow>)
  {
    && (forall n | n in nodes :: NodeOk(n, manifests))
    && (forall a, b | a in nodes && b in nodes && a != b :: NodesApart(a, b))
  }

  ghost predicate EdgesOk(edges: set<EdgeRow>, nodes: set<NodeRow>)
  {
    forall e | e in edges ::
      && e.predecessor != e.successor
      && (exists n :: n in nodes && n.manifest == e.manifest && n.id == e.predecessor)
      && (exists n :: n in nodes && n.manifest == e.manifest && n.id == e.successor)
  }

  ghost predicate ObservationOk(o: ObservationRow, events: map<nat, EventRow>, transactions: map<string, string>)
  {
    && 1 <= o.sequence <= MAX && o.epoch <= MAX && Neat(o.delivery) && Neat(o.transaction) && o.payload.Obj?
    && o.event in events && o.transaction in transactions
    && transactions[o.transaction] == events[o.event].portfolio
  }

  /** Of two rows of one event the later one has another sequence and delivery; of one child, no lower epoch,
      and the same hash within an epoch. */
  ghost predicate ObservationFollows(a: ObservationRow, b: ObservationRow)
  {
    a.event == b.event ==>
      && a.sequence != b.sequence && a.delivery != b.delivery
      && (a.transaction == b.transaction ==> a.epoch < b.epoch || (a.epoch == b.epoch && a.hash == b.hash))
  }

  ghost predicate ObservationsOk(rows: seq<ObservationRow>, events: map<nat, EventRow>,
                                 transactions: map<string, string>)
  {
    && (forall i | 0 <= i < |rows| :: ObservationOk(rows[i], events, transactions))
    && (forall i, j | 0 <= i < j < |rows| :: ObservationFollows(rows[i], rows[j]))
  }

  ghost predicate Constrained(t: Tables)
  {
    && EventsOk(t.events, t.manifests) && ManifestsOk(t.manifests, t.events) && NodesOk(t.nodes, t.manifests)
    && EdgesOk(t.edges, t.nodes) && ObservationsOk(t.observations, t.events, t.transactions)
  }

  // ---------------------------------------------------------------- what a statement may do

  /** An insert adds a new row; an update is of a stored event. */
  ghost predicate Fresh(t: Tables, s: Step)
  {
    match s
    case InsertEvent(id, _) => id !in t.events
    case UpdateEvent(id, _) => id in t.events
    case InsertManifest(id, _) => id !in t.manifests
    case InsertNode(n) => n !in t.nodes
    case InsertEdge(e) => e !in t.edges
    case InsertObservation(_) => true
  }

  /** The rules about change: an event keeps its identity and its counter does not fall; a version opens at 0
      or, if later, at the event's counter. */
  ghost predicate MayChange(t: Tables, s: Step)
  {
    match s
    case UpdateEvent(id, e) =>
      && id in t.events
      && var row := t.events[id];
      && row.tenant == e.tenant && row.legalBook == e.legalBook && row.portfolio == e.portfolio
      && row.eventId == e.eventId && row.group == e.group && row.parent == e.parent
      && row.lastSequence <= e.lastSequence
    case InsertManifest(_, m) =>
      m.opening == if m.version != 1 && m.event in t.events then t.events[m.event].lastSequence else 0
    case _ => true
  }

  // ---------------------------------------------------------------- columns

  lemma NeatExactly(s: string)
    ensures Text.Normalized(s) <==> Neat(s)
  {
    if Text.Normalized(s) {
      forall i | 0 <= i < |s| ensures s[i] as int != 0 { assert s[i] in s; }
    }
  }

  lemma NeatOptions(o: Option<string>)
    ensures NormalizedOption(o) <==> NeatOrNull(o)
  {
    if o.Some? { NeatExactly(o.value); }
  }

  // ---------------------------------------------------------------- events

  lemma EventColumns(e: EventRow)
    ensures EventChecks(e) <==>
              && Neat(e.tenant) && Neat(e.legalBook) && Neat(e.portfolio) && Neat(e.eventId) && Neat(e.group)
              && Neat(e.parent)
  {
    hide Neat, Text.Normalized;
    NeatExactly(e.tenant);
    NeatExactly(e.legalBook);
    NeatExactly(e.portfolio);
    NeatExactly(e.eventId);
    NeatExactly(e.group);
    NeatExactly(e.parent);
  }

  lemma EventInsertExactly(t: Tables, id: nat, e: EventRow)
    requires Constrained(t) && id !in t.events
    ensures CanInsertEvent(t, id, e) <==> EventsOk(t.events[id := e], t.manifests)
  {
    hide Neat, EventChecks, ManifestsOk, NodesOk, EdgesOk, ObservationsOk;
    EventColumns(e);
    NoVersions(t, id);
    var after := t.events[id := e];
    if EventsOk(after, t.manifests) {
      assert EventOk(id, after[id], t.manifests);
      forall k | k in t.events ensures EventsApart(t.events[k], e) { assert after[k] == t.events[k] && after[id] == e; }
    }
  }

  lemma NoVersions(t: Tables, id: nat)
    requires Constrained(t) && id !in t.events
    ensures forall k | k in t.manifests :: t.manifests[k].event != id
  {
    forall k | k in t.manifests ensures t.manifests[k].event != id {
      assert ManifestOk(k, t.manifests[k], t.manifests, t.events);
    }
  }

  lemma EventUpdateExactly(t: Tables, id: nat, e: EventRow)
    requires Constrained(t) && id in t.events && MayChange(t, UpdateEvent(id, e))
    ensures CanUpdateEvent(t, id, e) <==> EventsOk(t.events[id := e], t.manifests)
  {
    hide Neat, ManifestsOk, NodesOk, EdgesOk, ObservationsOk;
    var after := t.events[id := e];
    assert EventOk(id, t.events[id], t.manifests);
    if EventsOk(after, t.manifests) { assert EventOk(id, after[id], t.manifests); }
    forall i, j | i in after && j in after && i != j ensures EventsApart(after[i], after[j]) {
      assert EventsApart(t.events[i], t.events[j]);
    }
  }

  lemma UpdateKeepsIdentity(t: Tables, id: nat, e: EventRow)
    requires CanUpdateEvent(t, id, e)
    ensures Fresh(t, UpdateEvent(id, e)) && MayChange(t, UpdateEvent(id, e))
  {
  }

  /** Events with the same ids and identity serve the other tables as well. */
  ghost predicate SameIdentities(a: map<nat, EventRow>, b: map<nat, EventRow>)
  {
    forall id | id in a :: && id in b && a[id].tenant == b[id].tenant && a[id].legalBook == b[id].legalBook
                           && a[id].portfolio == b[id].portfolio
  }

  lemma EventsServe(t: Tables, events: map<nat, EventRow>)
    requires ManifestsOk(t.manifests, t.events) && ObservationsOk(t.observations, t.events, t.transactions)
    requires SameIdentities(t.events, events)
    ensures ManifestsOk(t.manifests, events) && ObservationsOk(t.observations, events, t.transactions)
  {
    hide Neat, ChainOk, ObservationFollows, ManifestsApart, Timestamp.InColumn, TextAt;
    forall id | id in t.manifests ensures ManifestOk(id, t.manifests[id], t.manifests, events) {
      assert ManifestOk(id, t.manifests[id], t.manifests, t.events);
    }
    forall i | 0 <= i < |t.observations| ensures ObservationOk(t.observations[i], events, t.transactions) {
      assert ObservationOk(t.observations[i], t.events, t.transactions);
    }
  }

  // ---------------------------------------------------------------- manifests

  lemma ManifestColumns(m: ManifestRow)
    ensures ManifestChecks(m) <==>
              && 1 <= m.version <= MAX && m.nodeCount <= MAX && m.edgeCount <= MAX && m.opening <= MAX
              && Neat(m.typ) && Neat(m.system) && Neat(m.recordId) && Neat(m.revision)
              && Timestamp.InColumn(m.observedAt) && m.payload.Obj?
              && (m.version == 1 ==> m.previousId == None && m.previousHash == None)
              && (m.version > 1 ==> m.previousId != None && m.previousHash != None)
  {
    hide Neat, Text.Normalized, Timestamp.InColumn;
    NeatExactly(m.typ);
    NeatExactly(m.system);
    NeatExactly(m.recordId);
    NeatExactly(m.revision);
  }

  lemma ScopeExactly(t: Tables, m: ManifestRow)
    requires m.event in t.events && m.payload.Obj?
    ensures ScopeAgrees(t, m) <==>
              && TextAt(m.payload, "tenant_id") in {None, Some(t.events[m.event].tenant)}
              && TextAt(m.payload, "legal_book_id") in {None, Some(t.events[m.event].legalBook)}
  {
  }

  lemma ChainServes(m: ManifestRow, manifests: map<nat, ManifestRow>, id: nat, row: ManifestRow)
    requires id !in manifests && ChainOk(m, manifests)
    ensures ChainOk(m, manifests[id := row])
  {
  }

  lemma ManifestRowExactly(t: Tables, id: nat, m: ManifestRow)
    requires id !in t.manifests && MayChange(t, InsertManifest(id, m))
    ensures id <= MAX && OpensAtBoundary(t, m) && ContinuesChain(t, m) && ScopeAgrees(t, m) && ManifestChecks(m)
            <==> ManifestOk(id, m, t.manifests[id := m], t.events)
  {
    hide Neat, Text.Normalized, Timestamp.InColumn, ManifestChecks, ScopeAgrees, TextAt;
    ManifestColumns(m);
    if m.event in t.events && m.payload.Obj? { ScopeExactly(t, m); }
  }

  lemma ManifestInsertExactly(t: Tables, id: nat, m: ManifestRow)
    requires Constrained(t) && id !in t.manifests && MayChange(t, InsertManifest(id, m))
    ensures CanInsertManifest(t, id, m) <==> ManifestsOk(t.manifests[id := m], t.events)
  {
    hide ManifestOk, ManifestChecks, ScopeAgrees, OpensAtBoundary, ContinuesChain, EventsOk, NodesOk, EdgesOk;
    hide ObservationsOk, MayChange, ChainOk;
    var after := t.manifests[id := m];
    ManifestRowExactly(t, id, m);
    forall k | k in t.manifests ensures ManifestOk(k, after[k], after, t.events) { ManifestServes(t, id, m, k); }
    if ManifestsOk(after, t.events) {
      assert ManifestOk(id, after[id], after, t.events);
      forall k | k in t.manifests ensures ManifestsApart(t.manifests[k], m) {
        assert after[k] == t.manifests[k] && after[id] == m;
      }
    }
  }

  lemma ManifestServes(t: Tables, id: nat, m: ManifestRow, k: nat)
    requires id !in t.manifests && k in t.manifests && ManifestsOk(t.manifests, t.events)
    ensures ManifestOk(k, t.manifests[k], t.manifests[id := m], t.events)
  {
    hide ChainOk, Neat, Timestamp.InColumn, TextAt;
    assert ManifestOk(k, t.manifests[k], t.manifests, t.events);
    ChainServes(t.manifests[k], t.manifests, id, m);
  }

  lemma OpeningRule(t: Tables, id: nat, m: ManifestRow)
    requires CanInsertManifest(t, id, m)
    ensures Fresh(t, InsertManifest(id, m)) && MayChange(t, InsertManifest(id, m))
  {
    hide ManifestChecks, ScopeAgrees, ContinuesChain, ManifestUnique;
  }

  lemma ManifestsServe(t: Tables, id: nat, m: ManifestRow)
    requires EventsOk(t.events, t.manifests) && NodesOk(t.nodes, t.manifests) && id !in t.manifests
    ensures EventsOk(t.events, t.manifests[id := m]) && NodesOk(t.nodes, t.manifests[id := m])
  {
    hide Neat, EventsApart, NodesApart;
    var after := t.manifests[id := m];
    forall k | k in t.events ensures EventOk(k, t.events[k], after) {
      assert EventOk(k, t.events[k], t.manifests);
      if t.events[k].current != None {
        var v :| v in t.manifests && t.manifests[v].event == k && t.manifests[v].version == t.events[k].current.value;
        assert after[v] == t.manifests[v];
      }
    }
    forall n | n in t.nodes ensures NodeOk(n, after) { assert NodeOk(n, t.manifests); }
  }

  // ---------------------------------------------------------------- nodes and edges

  lemma NodeColumns(n: NodeRow)
    ensures NodeChecks(n) <==>
              && Neat(n.id) && Neat(n.typ) && Neat(n.role)
              && NeatOrNull(n.instrument) && NeatOrNull(n.source) && NeatOrNull(n.target)
              && (n.hint == None || n.hint.value <= MAX) && (n.ordinal == None || n.ordinal.value <= MAX)
  {
    hide Neat, NeatOrNull, NormalizedOption, Text.Normalized;
    NeatExactly(n.id);
    NeatExactly(n.typ);
    NeatExactly(n.role);
    NeatOptions(n.instrument);
    NeatOptions(n.source);
    NeatOptions(n.target);
  }

  lemma NodeInsertExactly(t: Tables, n: NodeRow)
    requires NodesOk(t.nodes, t.manifests) && n !in t.nodes
    ensures CanInsertNode(t, n) <==> NodesOk(t.nodes + {n}, t.manifests)
  {
    hide NodeChecks, Neat, NeatOrNull;
    NodeColumns(n);
    var after := t.nodes + {n};
    if NodesOk(after, t.manifests) {
      assert n in after && NodeOk(n, t.manifests);
      forall x | x in t.nodes ensures NodesApart(x, n) { assert x in after; }
    }
  }

  lemma EdgeInsertExactly(t: Tables, e: EdgeRow)
    requires EdgesOk(t.edges, t.nodes) && e !in t.edges
    ensures CanInsertEdge(t, e) <==> EdgesOk(t.edges + {e}, t.nodes)
  {
    if EdgesOk(t.edges + {e}, t.nodes) { assert e in t.edges + {e}; }
  }

  // ---------------------------------------------------------------- observations

  lemma Monotone(t: Tables)
    requires ObservationsOk(t.observations, t.events, t.transactions)
    ensures EpochsMonotone(t)
  {
    forall i, j | 0 <= i < j < |t.observations| && SameChild(t.observations[i], t.observations[j])
      ensures t.observations[i].epoch <= t.observations[j].epoch
      ensures t.observations[i].epoch == t.observations[j].epoch ==> t.observations[i].hash == t.observations[j].hash
    {
      assert ObservationFollows(t.observations[i], t.observations[j]);
    }
  }

  lemma ObservationInsertExactly(t: Tables, o: ObservationRow)
    requires ObservationsOk(t.observations, t.events, t.transactions)
    ensures CanInsertObservation(t, o) <==> ObservationsOk(t.observations + [o], t.events, t.transactions)
  {
    hide Neat, Text.Normalized, EpochAdvances, EpochsMonotone;
    Monotone(t);
    EpochGuardExactly(t, o);
    NeatExactly(o.delivery);
    NeatExactly(o.transaction);
    var rows := t.observations + [o];
    assert rows[|t.observations|] == o;
    if ObservationsOk(rows, t.events, t.transactions) {
      assert ObservationOk(rows[|t.observations|], t.events, t.transactions);
      forall i | 0 <= i < |t.observations| ensures ObservationFollows(t.observations[i], o) {
        assert rows[i] == t.observations[i] && ObservationFollows(rows[i], rows[|t.observations|]);
      }
    }
    if CanInsertObservation(t, o) {
      forall i, j | 0 <= i < j < |rows| ensures ObservationFollows(rows[i], rows[j]) {
        if j < |t.observations| { assert ObservationFollows(t.observations[i], t.observations[j]); }
      }
    }
  }

  // ---------------------------------------------------------------- the theorem

  /** A statement is accepted exactly when it is about a new row, keeps the rules about change, and leaves the
      tables within their constraints. */
  lemma EnabledExactly(t: Tables, s: Step)
    requires Constrained(t)
    ensures Enabled(t, s) <==> Fresh(t, s) && MayChange(t, s) && Constrained(Apply(t, s))
  {
    hide EventsOk, ManifestsOk, NodesOk, EdgesOk, ObservationsOk, CanInsertEvent, CanUpdateEvent, CanInsertManifest;
    hide CanInsertNode, CanInsertEdge, CanInsertObservation;
    match s
    case InsertEvent(id, e) => EventInsertEnabled(t, id, e);
    case UpdateEvent(id, e) => EventUpdateEnabled(t, id, e);
    case InsertManifest(id, m) => ManifestInsertEnabled(t, id, m);
    case InsertNode(n) => NodeInsertEnabled(t, n);
    case InsertEdge(e) =>
      if e !in t.edges { EdgeInsertExactly(t, e); } else { EdgeRepeated(t, e); }
    case InsertObservation(o) => ObservationInsertExactly(t, o);
  }

  lemma EventInsertEnabled(t: Tables, id: nat, e: EventRow)
    requires Constrained(t)
    ensures CanInsertEvent(t, id, e) <==> id !in t.events && Constrained(t.(events := t.events[id := e]))
  {
    hide EventsOk, ManifestsOk, NodesOk, EdgesOk, ObservationsOk;
    if id !in t.events {
      hide CanInsertEvent;
      EventInsertExactly(t, id, e);
      EventsServe(t, t.events[id := e]);
    }
  }

  lemma EventUpdateEnabled(t: Tables, id: nat, e: EventRow)
    requires Constrained(t)
    ensures CanUpdateEvent(t, id, e) <==>
              id in t.events && MayChange(t, UpdateEvent(id, e)) && Constrained(t.(events := t.events[id := e]))
  {
    hide EventsOk, ManifestsOk, NodesOk, EdgesOk, ObservationsOk, CanUpdateEvent;
    if CanUpdateEvent(t, id, e) { UpdateKeepsIdentity(t, id, e); }
    if id in t.events && MayChange(t, UpdateEvent(id, e)) {
      EventUpdateExactly(t, id, e);
      EventsServe(t, t.events[id := e]);
    }
  }

  lemma ManifestInsertEnabled(t: Tables, id: nat, m: ManifestRow)
    requires Constrained(t)
    ensures CanInsertManifest(t, id, m) <==>
              && id !in t.manifests && MayChange(t, InsertManifest(id, m))
              && Constrained(t.(manifests := t.manifests[id := m]))
  {
    hide EventsOk, ManifestsOk, NodesOk, EdgesOk, ObservationsOk, CanInsertManifest, MayChange;
    if CanInsertManifest(t, id, m) { OpeningRule(t, id, m); }
    if id !in t.manifests && MayChange(t, InsertManifest(id, m)) {
      ManifestInsertExactly(t, id, m);
      ManifestsServe(t, id, m);
    }
  }

  lemma NodeInsertEnabled(t: Tables, n: NodeRow)
    requires Constrained(t)
    ensures CanInsertNode(t, n) <==> n !in t.nodes && Constrained(t.(nodes := t.nodes + {n}))
  {
    hide EventsOk, ManifestsOk, NodesOk, ObservationsOk, NodeChecks;
    if n !in t.nodes {
      hide CanInsertNode;
      NodeInsertExactly(t, n);
    }
  }

  lemma EdgeRepeated(t: Tables, e: EdgeRow)
    requires e in t.edges
    ensures !CanInsertEdge(t, e)
  {
  }

  lemma {:induction false} RunConstrained(t: Tables, steps: seq<Step>, u: Tables)
    requires Constrained(t) && IsRun(t, steps, u)
    ensures Constrained(u)
    decreases |steps|
  {
    hide Constrained, Enabled, Apply;
    if steps != [] {
      EnabledExactly(t, steps[0]);
      RunConstrained(Apply(t, steps[0]), steps[1..], u);
    }
  }

  /** Every state of every run satisfies the constraints. */
  lemma ReachableConstrained(t: Tables)
    requires Reachable(t)
    ensures Constrained(t)
  {
    var transactions, steps :| IsRun(Empty(transactions), steps, t);
    EmptyConstrained(transactions);
    hide Constrained;
    RunConstrained(Empty(transactions), steps, t);
  }

  lemma EmptyConstrained(transactions: map<string, string>)
    ensures Constrained(Empty(transactions))
  {
  }
}
