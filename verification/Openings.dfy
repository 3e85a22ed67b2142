/** Where manifest versions open: a later version opens at the event's last observation sequence, for good,
    and the counter may move between versions in any way that does not lower it. */
module Openings {
  import opened Wrappers
  import opened Json
  import opened Ledger
  import opened Authority
  import opened EventStore
  import opened ManifestRun
  import Text
  import Timestamp
  import Calendar

  // ---------------------------------------------------------------- an opening is for good

  lemma StepKeepsManifest(t: Tables, s: Step, id: nat)
    requires id in t.manifests && Enabled(t, s)
    ensures id in Apply(t, s).manifests && Apply(t, s).manifests[id] == t.manifests[id]
  {
    hide CanInsertEvent, CanUpdateEvent, CanInsertNode, CanInsertEdge, CanInsertObservation;
  }

  /** Manifest rows are never changed. */
  lemma {:induction false} RunKeepsManifest(t: Tables, steps: seq<Step>, u: Tables, id: nat)
    requires id in t.manifests && IsRun(t, steps, u)
    ensures id in u.manifests && u.manifests[id] == t.manifests[id]
    decreases |steps|
  {
    hide Enabled, Apply;
    if steps != [] {
      StepKeepsManifest(t, steps[0], id);
      RunKeepsManifest(Apply(t, steps[0]), steps[1..], u, id);
    }
  }

  lemma InsertedOpening(t: Tables, id: nat, m: ManifestRow)
    requires Enabled(t, InsertManifest(id, m))
    ensures m.event in t.events && m.opening == if m.version > 1 then t.events[m.event].lastSequence else 0
    ensures m.version >= 1 && (m.version > 1 ==> m.previousId.Some?) && (m.version == 1 ==> m.previousId.None?)
  {
    hide Timestamp.InColumn;
  }

  /** In every state after the insert of a later version, a transaction that the version before does not declare
      counts exactly from after the event's last sequence at the time of the insert. */
  lemma LaterVersionOpens(t: Tables, id: nat, m: ManifestRow, steps: seq<Step>, u: Tables, tx: string, sequence: nat)
    requires Inv(t) && Enabled(t, InsertManifest(id, m)) && m.version > 1
    requires IsRun(Apply(t, InsertManifest(id, m)), steps, u)
    requires m.previousId.Some? && !HasNode(u, m.previousId.value, tx)
    ensures m.event in t.events && Inv(u) && id in u.manifests
    ensures Authorized(u, id, tx, sequence) <==> sequence > t.events[m.event].lastSequence
  {
    hide Inv, Enabled, HasNode, Authorized;
    StepKeeps(t, InsertManifest(id, m));
    RunKeeps(Apply(t, InsertManifest(id, m)), steps, u);
    RunKeepsManifest(Apply(t, InsertManifest(id, m)), steps, u, id);
    InsertedOpening(t, id, m);
    if HasNode(u, id, tx) { ReAddedRestarts(u, id, tx, sequence); } else {
      UndeclaredCountsAfterOpening(u, id, tx, sequence);
    }
  }

  /** For a first version every observation counts. */
  lemma FirstVersionOpens(t: Tables, id: nat, m: ManifestRow, steps: seq<Step>, u: Tables, tx: string, sequence: nat)
    requires Inv(t) && Enabled(t, InsertManifest(id, m)) && m.version == 1
    requires IsRun(Apply(t, InsertManifest(id, m)), steps, u)
    ensures Inv(u) && id in u.manifests && (Authorized(u, id, tx, sequence) <==> sequence > 0)
  {
    hide Inv, Enabled, HasNode;
    StepKeeps(t, InsertManifest(id, m));
    RunKeeps(Apply(t, InsertManifest(id, m)), steps, u);
    RunKeepsManifest(Apply(t, InsertManifest(id, m)), steps, u, id);
    InsertedOpening(t, id, m);
    FirstChain(u, id, tx);
  }

  lemma FirstChain(u: Tables, id: nat, tx: string)
    requires Inv(u) && id in u.manifests && u.manifests[id].previousId.None?
    ensures Chained(u) && RetainedChain(u, id, tx) == if HasNode(u, id, tx) then [id] else []
  {
  }

  // ---------------------------------------------------------------- which openings a chain can have

  /** Version `v` of the event opens at `os[v - 1]`. */
  ghost predicate OpensAt(t: Tables, event: nat, v: nat, opening: nat)
  {
    exists k :: k in t.manifests && t.manifests[k].event == event && t.manifests[k].version == v
                && t.manifests[k].opening == opening
  }

  ghost predicate Opens(t: Tables, event: nat, os: seq<nat>)
  {
    event in t.events && forall i: nat | i < |os| :: OpensAt(t, event, i + 1, os[i])
  }

  /** They start at 0, never fall, and fit their columns. */
  ghost predicate Rising(os: seq<nat>)
  {
    && Fits(|os|) && (os != [] ==> os[0] == 0) && (forall i | 0 <= i < |os| :: Fits(os[i]))
    && forall i | 0 < i < |os| :: os[i - 1] <= os[i]
  }

  lemma OpeningsRise(t: Tables, event: nat, os: seq<nat>)
    requires Inv(t) && Opens(t, event, os)
    ensures Rising(os)
  {
    hide Inv;
    forall i: nat | i < |os| ensures Fits(i + 1) && Fits(os[i]) && (i == 0 ==> os[i] == 0) {
      assert OpensAt(t, event, i + 1, os[i]);
      OpeningChecked(t, event, i + 1, os[i]);
    }
    forall i: nat | 0 < i < |os| ensures os[i - 1] <= os[i] {
      assert OpensAt(t, event, i, os[i - 1]) && OpensAt(t, event, i + 1, os[i]);
      NextOpening(t, event, i, os[i - 1], os[i]);
    }
    if os != [] {
      assert OpensAt(t, event, |os|, os[|os| - 1]) by { assert OpensAt(t, event, (|os| - 1) + 1, os[|os| - 1]); }
      OpeningChecked(t, event, |os|, os[|os| - 1]);
    }
  }

  lemma OpeningChecked(t: Tables, event: nat, v: nat, opening: nat)
    requires Inv(t) && OpensAt(t, event, v, opening)
    ensures Fits(v) && Fits(opening) && (v == 1 ==> opening == 0)
  {
    var k :| && k in t.manifests && t.manifests[k].event == event && t.manifests[k].version == v
             && t.manifests[k].opening == opening;
    assert Linked(t, k) && ManifestChecks(t.manifests[k]);
  }

  lemma NextOpening(t: Tables, event: nat, v: nat, a: nat, b: nat)
    requires Inv(t) && v >= 1 && OpensAt(t, event, v, a) && OpensAt(t, event, v + 1, b)
    ensures a <= b
  {
    hide ManifestsChecked, NodesKeyed, EdgesClosed, EpochsMonotone, UniqueSequences, ScopesAgree, CurrentVersions;
    var j :| && j in t.manifests && t.manifests[j].event == event && t.manifests[j].version == v
             && t.manifests[j].opening == a;
    var k :| && k in t.manifests && t.manifests[k].event == event && t.manifests[k].version == v + 1
             && t.manifests[k].opening == b;
    assert Linked(t, k);
    assert t.manifests[k].previousId.value == j;
  }

  // ---------------------------------------------------------------- a run for each of them

  function Event(last: nat): EventRow
  {
    EventRow("t", "b", "p", "e", "g", "r", None, last, 1)
  }

  function Row(v: nat, opening: nat): ManifestRow
  {
    ManifestRow(1, v, "T", false, "S", Filled(v), "1", "", 0, Filled(v), if v > 1 then Some(v - 1) else None,
                if v > 1 then Some(Filled(v - 1)) else None, 0, 0, opening, Obj(map[]))
  }

  function Last(os: seq<nat>, n: nat): nat
    requires n <= |os|
  {
    if n == 0 then 0 else os[n - 1]
  }

  function VersionRow(os: seq<nat>, v: nat): ManifestRow
    requires 1 <= v <= |os|
  {
    Row(v, os[v - 1])
  }

  /** The event and its first `n` versions. */
  function State(os: seq<nat>, n: nat): Tables
    requires n <= |os|
  {
    Tables(map[], map[1 := Event(Last(os, n))], map v: nat | 1 <= v <= n :: VersionRow(os, v), {}, {}, [])
  }

  lemma StartReached(os: seq<nat>)
    ensures Reachable(State(os, 0))
  {
    hide Reachable;
    EmptyReached(map[]);
    assert EventChecks(Event(0)) by { EventNamed(); }
    ReachableExtends(Empty(map[]), InsertEvent(1, Event(0)));
    assert Apply(Empty(map[]), InsertEvent(1, Event(0))) == State(os, 0);
  }

  lemma EventNamed()
    ensures EventChecks(Event(0))
  {
  }

  lemma RowChecks(v: nat, opening: nat)
    requires v >= 1 && Fits(v) && Fits(opening)
    ensures ManifestChecks(Row(v, opening))
  {
    hide Timestamp.InColumn;
    EpochInColumn();
    assert Text.Normalized("T") && Text.Normalized("S") && Text.Normalized("1");
  }

  lemma EpochInColumn()
    ensures Timestamp.InColumn(0)
  {
    Timestamp.YearsInColumn(Calendar.Civil(1, 1, 1, 0, 0, 0, 0));
  }

  lemma {:induction false} StateReached(os: seq<nat>, n: nat)
    requires Rising(os) && n <= |os|
    ensures Reachable(State(os, n))
  {
    hide Reachable, ManifestChecks;
    if n == 0 {
      StartReached(os);
    } else {
      StateReached(os, n - 1);
      var t, m := State(os, n - 1), Row(n, os[n - 1]);
      var e := Event(os[n - 1]);
      CounterMoves(os, n);
      ReachableExtends(t, UpdateEvent(1, e));
      var u := Apply(t, UpdateEvent(1, e));
      RowChecks(n, os[n - 1]);
      NextInserted(os, n, u);
      ReachableExtends(u, InsertManifest(n, m));
      assert Apply(u, InsertManifest(n, m)) == State(os, n);
    }
  }

  lemma CounterMoves(os: seq<nat>, n: nat)
    requires Rising(os) && 1 <= n <= |os|
    ensures CanUpdateEvent(State(os, n - 1), 1, Event(os[n - 1]))
  {
  }

  lemma NextInserted(os: seq<nat>, n: nat, u: Tables)
    requires Rising(os) && 1 <= n <= |os| && ManifestChecks(Row(n, os[n - 1]))
    requires u == State(os, n - 1).(events := map[1 := Event(os[n - 1])])
    ensures CanInsertManifest(u, n, Row(n, os[n - 1]))
  {
    hide ManifestChecks;
    forall k | k in u.manifests ensures u.manifests[k].hash != Filled(n) && u.manifests[k].version == k {
      assert |Filled(k)| == k;
    }
  }

  /** The openings an event's versions can have, over all runs, are exactly the rising ones. */
  lemma OpeningsExactly(os: seq<nat>)
    ensures (exists t, event :: Reachable(t) && Opens(t, event, os)) <==> Rising(os)
  {
    hide Reachable, Rising, Inv;
    if t, event :| Reachable(t) && Opens(t, event, os) {
      ReachableInv(t);
      OpeningsRise(t, event, os);
    }
    if Rising(os) {
      StateReached(os, |os|);
      StateOpens(os);
    }
  }

  lemma StateOpens(os: seq<nat>)
    ensures Opens(State(os, |os|), 1, os)
  {
    var t := State(os, |os|);
    forall i: nat | i < |os| ensures OpensAt(t, 1, i + 1, os[i]) {
      assert i + 1 in t.manifests;
    }
  }
}
