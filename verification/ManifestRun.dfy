/** A run that stores a given manifest with its graph and observations: the event, the versions before
    the manifest, the manifest, its nodes and edges, the observations, and last the event's counters. */
module ManifestRun {
  import opened Wrappers
  import opened Json
  import opened Ledger
  import opened EventStore
  import Text

  /** The rows to store. The manifest is stored under its version, the event under 1. */
  datatype Rows = Rows(transactions: map<string, string>, event: EventRow, row: ManifestRow, nodes: set<NodeRow>,
                       edges: set<EdgeRow>, observations: seq<ObservationRow>, current: Option<nat>)

  /** A text of the length. */
  function Filled(n: nat): (s: string)
    ensures |s| == n && forall i | 0 <= i < n :: s[i] == 'x'
  {
    if n == 0 then "" else "x" + Filled(n - 1)
  }

  /** Texts longer than the manifest's own stand for the hashes and record ids of earlier versions. */
  function EarlierHash(row: ManifestRow, v: nat): string
  {
    Filled(|row.hash| + v)
  }

  function Earlier(row: ManifestRow, v: nat): ManifestRow
  {
    ManifestRow(1, v, row.typ, false, row.system, Filled(|row.recordId| + v), row.revision, row.contentHash,
                row.observedAt, EarlierHash(row, v), if v > 1 then Some(v - 1) else None,
                if v > 1 then Some(EarlierHash(row, v - 1)) else None, 0, 0, 0, Obj(map[]))
  }

  function Version(r: Rows, v: nat): ManifestRow
  {
    if v == r.row.version then r.row else Earlier(r.row, v)
  }

  function Versions(r: Rows, n: nat): map<nat, ManifestRow>
  {
    map v: nat | 1 <= v <= n :: Version(r, v)
  }

  function Opened(r: Rows, n: nat): Tables
  {
    Tables(r.transactions, map[1 := r.event], Versions(r, n), {}, {}, [])
  }

  function Counters(r: Rows): EventRow
  {
    r.event.(current := r.current, lastSequence := |r.observations|)
  }

  function Final(r: Rows): Tables
  {
    Tables(r.transactions, map[1 := Counters(r)], Versions(r, r.row.version), r.nodes, r.edges, r.observations)
  }

  // ---------------------------------------------------------------- what the rows must satisfy

  ghost predicate ManifestStorable(r: Rows)
  {
    && EventChecks(r.event) && r.event.current.None? && r.event.lastSequence == 0 && Fits(r.event.stateVersion)
    && r.row.event == 1 && r.row.opening == 0 && ManifestChecks(r.row)
    && (r.row.version > 1 ==>
          && r.row.previousId == Some(r.row.version - 1)
          && r.row.previousHash == Some(EarlierHash(r.row, r.row.version - 1)))
    && ScopeAgrees(Opened(r, 0), r.row)
  }

  ghost predicate NodesStorable(v: nat, nodes: set<NodeRow>)
  {
    && (forall n | n in nodes :: n.manifest == v && NodeChecks(n))
    && (forall a, b | a in nodes && b in nodes && a != b ::
          a.id != b.id && (a.ordinal.Some? ==> a.ordinal != b.ordinal))
  }

  ghost predicate EdgesStorable(v: nat, nodes: set<NodeRow>, edges: set<EdgeRow>)
  {
    forall e | e in edges ::
      && e.manifest == v && e.predecessor != e.successor
      && (exists n | n in nodes :: n.id == e.predecessor) && (exists n | n in nodes :: n.id == e.successor)
  }

  ghost predicate ObservationsStorable(r: Rows)
  {
    && Fits(|r.observations|)
    && (forall i | 0 <= i < |r.observations| ::
          var o := r.observations[i];
          && o.event == 1 && o.sequence == i + 1 && o.epoch == 0 && o.payload.Obj? && o.delivery == o.transaction
          && Text.Normalized(o.transaction)
          && o.transaction in r.transactions && r.transactions[o.transaction] == r.event.portfolio)
    && (forall i, j | 0 <= i < j < |r.observations| :: r.observations[i].transaction != r.observations[j].transaction)
  }

  ghost predicate Storable(r: Rows)
  {
    && ManifestStorable(r) && NodesStorable(r.row.version, r.nodes) && EdgesStorable(r.row.version, r.nodes, r.edges)
    && ObservationsStorable(r) && (r.current.Some? ==> r.current.value == r.row.version)
  }

  // ---------------------------------------------------------------- the run

  lemma EventReached(r: Rows)
    requires ManifestStorable(r)
    ensures Reachable(Opened(r, 0))
  {
    hide Reachable, ScopeAgrees, ManifestChecks;
    var t := Empty(r.transactions);
    EmptyReached(r.transactions);
    ReachableExtends(t, InsertEvent(1, r.event));
    assert Apply(t, InsertEvent(1, r.event)) == Opened(r, 0);
  }

  lemma EmptyReached(transactions: map<string, string>)
    ensures Reachable(Empty(transactions))
  {
    assert IsRun(Empty(transactions), [], Empty(transactions));
  }

  lemma VersionsDiffer(r: Rows, v: nat, w: nat)
    requires 1 <= v < w <= r.row.version
    ensures Version(r, v).hash != Version(r, w).hash && Version(r, v).recordId != Version(r, w).recordId
  {
    assert |Earlier(r.row, v).hash| == |r.row.hash| + v && |Earlier(r.row, w).hash| == |r.row.hash| + w;
  }

  lemma VersionStorable(r: Rows, v: nat)
    requires ManifestStorable(r) && 1 <= v <= r.row.version
    ensures Version(r, v).event == 1 && Version(r, v).version == v && Version(r, v).opening == 0
    ensures ManifestChecks(Version(r, v)) && ScopeAgrees(Opened(r, v - 1), Version(r, v))
    ensures v > 1 ==> && Version(r, v).previousId == Some(v - 1)
                      && Version(r, v).previousHash == Some(Version(r, v - 1).hash)
  {
    hide Filled;
  }

  lemma NextVersion(r: Rows, v: nat)
    requires ManifestStorable(r) && 1 <= v <= r.row.version
    ensures Enabled(Opened(r, v - 1), InsertManifest(v, Version(r, v)))
  {
    hide Version, ManifestChecks, ScopeAgrees, ManifestStorable;
    var t, m := Opened(r, v - 1), Version(r, v);
    VersionStorable(r, v);
    Versioned(r);
    if v > 1 { VersionStorable(r, v - 1); }
    forall k | k in t.manifests
      ensures && t.manifests[k].version != m.version && t.manifests[k].hash != m.hash
              && t.manifests[k].recordId != m.recordId
    {
      VersionStorable(r, k);
      VersionsDiffer(r, k, v);
    }
  }

  lemma {:induction false} VersionsReached(r: Rows, n: nat)
    requires ManifestStorable(r) && n <= r.row.version
    ensures Reachable(Opened(r, n))
  {
    hide Reachable, Enabled, ManifestStorable, Version;
    if n == 0 {
      EventReached(r);
    } else {
      VersionsReached(r, n - 1);
      NextVersion(r, n);
      ReachableExtends(Opened(r, n - 1), InsertManifest(n, Version(r, n)));
      assert Versions(r, n) == Versions(r, n - 1)[n := Version(r, n)];
    }
  }

  lemma {:induction false} NodesReached(t: Tables, v: nat, nodes: set<NodeRow>)
    requires Reachable(t) && t.nodes == {} && v in t.manifests && NodesStorable(v, nodes)
    ensures Reachable(t.(nodes := nodes))
    decreases |nodes|
  {
    hide Reachable, NodeChecks;
    if nodes == {} {
      assert t.(nodes := nodes) == t;
    } else {
      var n :| n in nodes;
      var rest := nodes - {n};
      NodesReached(t, v, rest);
      var u := t.(nodes := rest);
      assert CanInsertNode(u, n);
      ReachableExtends(u, InsertNode(n));
      assert rest + {n} == nodes;
    }
  }

  lemma {:induction false} EdgesReached(t: Tables, v: nat, edges: set<EdgeRow>)
    requires Reachable(t) && t.edges == {} && (forall n | n in t.nodes :: n.manifest == v)
    requires EdgesStorable(v, t.nodes, edges)
    ensures Reachable(t.(edges := edges))
    decreases |edges|
  {
    hide Reachable;
    if edges == {} {
      assert t.(edges := edges) == t;
    } else {
      var e :| e in edges;
      var rest := edges - {e};
      EdgesReached(t, v, rest);
      var u := t.(edges := rest);
      assert CanInsertEdge(u, e);
      ReachableExtends(u, InsertEdge(e));
      assert rest + {e} == edges;
    }
  }

  lemma {:induction false} ObservationsReached(t: Tables, r: Rows, n: nat)
    requires Reachable(t) && t.observations == [] && t.transactions == r.transactions && t.events == map[1 := r.event]
    requires ObservationsStorable(r) && n <= |r.observations|
    ensures Reachable(t.(observations := r.observations[..n]))
    decreases n
  {
    hide Reachable;
    if n == 0 {
      assert t.(observations := r.observations[..n]) == t;
    } else {
      ObservationsReached(t, r, n - 1);
      var u, o := t.(observations := r.observations[..n - 1]), r.observations[n - 1];
      NextObservation(u, r, n - 1);
      ReachableExtends(u, InsertObservation(o));
      assert r.observations[..n - 1] + [o] == r.observations[..n];
    }
  }

  /** Every row is the first of its transaction, so the epoch has nothing to advance from. */
  lemma NextObservation(u: Tables, r: Rows, n: nat)
    requires ObservationsStorable(r) && n < |r.observations| && u.observations == r.observations[..n]
    requires u.transactions == r.transactions && u.events == map[1 := r.event]
    ensures CanInsertObservation(u, r.observations[n])
  {
    var o := r.observations[n];
    forall k | 0 <= k < |u.observations|
      ensures u.observations[k].sequence != o.sequence && u.observations[k].transaction != o.transaction
              && u.observations[k].delivery != o.delivery
    {
      assert u.observations[k] == r.observations[k];
    }
  }

  lemma FinalReached(r: Rows)
    requires Storable(r)
    ensures Reachable(Final(r))
  {
    hide Reachable, ManifestStorable, ObservationsStorable, EdgesStorable, Version;
    var v := r.row.version;
    var t := Opened(r, v);
    VersionsReached(r, v);
    assert v >= 1 by { Versioned(r); }
    NodesReached(t, v, r.nodes);
    EdgesReached(t.(nodes := r.nodes), v, r.edges);
    var u := t.(nodes := r.nodes, edges := r.edges);
    ObservationsReached(u, r, |r.observations|);
    assert r.observations[..|r.observations|] == r.observations;
    var w := u.(observations := r.observations);
    CountersUpdate(w, r);
    ReachableExtends(w, UpdateEvent(1, Counters(r)));
    assert Apply(w, UpdateEvent(1, Counters(r))) == Final(r);
  }

  lemma Versioned(r: Rows)
    requires ManifestStorable(r)
    ensures r.row.version >= 1 && Fits(r.row.version) && r.row.event == 1
    ensures r.event.lastSequence == 0 && Fits(r.event.stateVersion)
  {
  }

  lemma CountFits(r: Rows)
    requires ObservationsStorable(r)
    ensures Fits(|r.observations|)
  {
  }

  lemma CountersUpdate(w: Tables, r: Rows)
    requires Storable(r) && w.events == map[1 := r.event] && w.manifests == Versions(r, r.row.version)
    ensures CanUpdateEvent(w, 1, Counters(r))
  {
    hide ObservationsStorable, EdgesStorable, NodesStorable, ManifestStorable;
    Versioned(r);
    CountFits(r);
    assert r.row.version in w.manifests;
    assert HasVersion(w, 1, r.row.version);
  }
}
