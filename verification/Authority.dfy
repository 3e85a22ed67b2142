/** The manifest version chain, and which observations a manifest version may count. */
module Authority {
  import opened Wrappers
  import opened Ledger

  // ---------------------------------------------------------------- the version chain

  /** The row reached from `k` by following `n` predecessor links. */
  function Back(t: Tables, k: nat, n: nat): (r: nat)
    requires Chained(t) && k in t.manifests && n < t.manifests[k].version
    ensures r in t.manifests
    ensures t.manifests[r].event == t.manifests[k].event
    ensures t.manifests[r].version == t.manifests[k].version - n
    decreases n
  {
    if n == 0 then k
    else
      assert Linked(t, k);
      Back(t, t.manifests[k].previousId.value, n - 1)
  }

  lemma {:induction false} BackStep(t: Tables, k: nat, n: nat)
    requires Chained(t) && k in t.manifests && n + 1 < t.manifests[k].version
    ensures t.manifests[Back(t, k, n)].previousId == Some(Back(t, k, n + 1))
    ensures t.manifests[Back(t, k, n)].previousHash == Some(t.manifests[Back(t, k, n + 1)].hash)
    decreases n
  {
    assert Linked(t, k);
    if n > 0 { BackStep(t, t.manifests[k].previousId.value, n - 1); }
  }

  /** Following links from version v reaches version 1, which has no predecessor, in v - 1 steps,
      and every row on the way is the only one of its version. */
  lemma ChainReachesFirst(t: Tables, k: nat)
    requires Inv(t) && k in t.manifests
    ensures var first := t.manifests[Back(t, k, t.manifests[k].version - 1)];
            first.version == 1 && first.previousId.None? && first.opening == 0
    ensures forall j, n | j in t.manifests && 0 <= n < t.manifests[k].version
                          && t.manifests[j].event == t.manifests[k].event
                          && t.manifests[j].version == t.manifests[k].version - n :: j == Back(t, k, n)
  {
    assert Linked(t, Back(t, k, t.manifests[k].version - 1));
  }

  lemma {:induction false} MaximumExists(s: set<nat>) returns (m: nat)
    requires s != {}
    ensures m in s && forall x | x in s :: x <= m
  {
    var a :| a in s;
    m := a;
    var rest := s - {a};
    if rest != {} {
      var n := MaximumExists(rest);
      if n > a { m := n; }
    }
    assert forall x | x in s :: x == a || x in rest;
  }

  lemma EarlierVersionsExist(t: Tables, k: nat, v: nat)
    requires Inv(t) && k in t.manifests && 1 <= v <= t.manifests[k].version
    ensures HasVersion(t, t.manifests[k].event, v)
  {
    var j := Back(t, k, t.manifests[k].version - v);
    assert t.manifests[j].version == v;
  }

  /** The versions of an event are exactly 1..n, without gaps; with `ChainReachesFirst`, without branches. */
  lemma VersionsAreAnInterval(t: Tables, event: nat) returns (n: nat)
    requires Inv(t)
    ensures forall v: nat :: HasVersion(t, event, v) <==> 1 <= v <= n
  {
    var versions := set k | k in t.manifests && t.manifests[k].event == event :: t.manifests[k].version;
    forall v: nat | HasVersion(t, event, v) ensures v >= 1 && v in versions {
      var k :| k in t.manifests && t.manifests[k].event == event && t.manifests[k].version == v;
      assert Linked(t, k);
    }
    if versions == {} {
      n := 0;
    } else {
      n := MaximumExists(versions);
      var top :| top in t.manifests && t.manifests[top].event == event && t.manifests[top].version == n;
      forall v: nat | 1 <= v <= n ensures HasVersion(t, event, v) { EarlierVersionsExist(t, top, v); }
    }
  }

  // ---------------------------------------------------------------- authorisation

  /** The recursive query: manifest rows from `k` back, while each still declares the transaction. */
  function RetainedChain(t: Tables, k: nat, tx: string): (c: seq<nat>)
    requires Chained(t)
    ensures forall i | 0 <= i < |c| :: c[i] in t.manifests
    decreases if k in t.manifests then t.manifests[k].version else 0
  {
    if k !in t.manifests || !HasNode(t, k, tx) then []
    else
      assert Linked(t, k);
      [k] + (if t.manifests[k].previousId.None? then [] else RetainedChain(t, t.manifests[k].previousId.value, tx))
  }

  /** `ca_observation_is_authorized`: after the opening of the most distant retained version;
      when the manifest does not declare the transaction, after its own opening. */
  function Authorized(t: Tables, k: nat, tx: string, sequence: nat): bool
    requires Chained(t)
  {
    var c := RetainedChain(t, k, tx);
    if c != [] then sequence > t.manifests[c[|c| - 1]].opening
    else k in t.manifests && sequence > t.manifests[k].opening
  }

  /** The `n + 1` versions ending at `k` all declare the transaction, and the one before does not. */
  ghost predicate UnbrokenRun(t: Tables, k: nat, tx: string, n: nat)
    requires Chained(t) && k in t.manifests
  {
    && n < t.manifests[k].version
    && (forall i | 0 <= i <= n :: HasNode(t, Back(t, k, i), tx))
    && (n + 1 < t.manifests[k].version ==> !HasNode(t, Back(t, k, n + 1), tx))
  }

  lemma {:induction false} RunMatchesChain(t: Tables, k: nat, tx: string, n: nat)
    requires Chained(t) && k in t.manifests && UnbrokenRun(t, k, tx, n)
    ensures var c := RetainedChain(t, k, tx); |c| == n + 1 && c[n] == Back(t, k, n)
    decreases n
  {
    assert Linked(t, k);
    assert HasNode(t, Back(t, k, 0), tx);
    var m := t.manifests[k];
    if m.previousId.Some? {
      var p := m.previousId.value;
      if n > 0 {
        assert forall i: nat | 0 <= i < m.version - 1 :: Back(t, p, i) == Back(t, k, i + 1);
        forall i | 0 <= i <= n - 1 ensures HasNode(t, Back(t, p, i), tx) { assert HasNode(t, Back(t, k, i + 1), tx); }
        RunMatchesChain(t, p, tx, n - 1);
      } else {
        assert Back(t, k, 1) == p;
      }
    }
  }

  /** Authorised means after the opening of the earliest version in the unbroken run of versions
      holding the transaction. */
  lemma AuthorizedExactly(t: Tables, k: nat, tx: string, n: nat, sequence: nat)
    requires Inv(t) && k in t.manifests && UnbrokenRun(t, k, tx, n)
    ensures Authorized(t, k, tx, sequence) <==> sequence > t.manifests[Back(t, k, n)].opening
  {
    RunMatchesChain(t, k, tx, n);
  }

  /** A run from the previous version is one longer from this one. */
  lemma RunGrows(t: Tables, k: nat, tx: string, prior: nat)
    requires Chained(t) && k in t.manifests && HasNode(t, k, tx) && Linked(t, k) && t.manifests[k].previousId.Some?
    requires UnbrokenRun(t, t.manifests[k].previousId.value, tx, prior)
    ensures UnbrokenRun(t, k, tx, prior + 1)
  {
    hide HasNode;
    var p, n := t.manifests[k].previousId.value, prior + 1;
    forall i | 0 <= i <= n ensures HasNode(t, Back(t, k, i), tx) {
      if i > 0 { assert Back(t, k, i) == Back(t, p, i - 1); }
    }
    if n + 1 < t.manifests[k].version { assert Back(t, k, n + 1) == Back(t, p, prior + 1); }
  }

  /** Every version that declares the transaction ends an unbroken run ... */
  lemma {:induction false} RunExists(t: Tables, k: nat, tx: string) returns (n: nat)
    requires Chained(t) && k in t.manifests && HasNode(t, k, tx)
    ensures UnbrokenRun(t, k, tx, n)
    decreases t.manifests[k].version
  {
    hide HasNode;
    assert Linked(t, k);
    var m := t.manifests[k];
    if m.previousId.Some? && HasNode(t, m.previousId.value, tx) {
      n := RunExists(t, m.previousId.value, tx);
      RunGrows(t, k, tx, n);
      n := n + 1;
    } else {
      n := 0;
      if 1 < m.version { assert Back(t, k, 1) == m.previousId.value; }
    }
  }

  /** ... and only one. */
  lemma RunUnique(t: Tables, k: nat, tx: string, m: nat, n: nat)
    requires Chained(t) && k in t.manifests && UnbrokenRun(t, k, tx, m) && UnbrokenRun(t, k, tx, n)
    ensures m == n
  {
    hide UnbrokenRun;
    RunMatchesChain(t, k, tx, m);
    RunMatchesChain(t, k, tx, n);
  }

  /** A transaction the manifest does not declare counts only after the manifest's own opening. */
  lemma UndeclaredCountsAfterOpening(t: Tables, k: nat, tx: string, sequence: nat)
    requires Inv(t) && k in t.manifests && !HasNode(t, k, tx)
    ensures Authorized(t, k, tx, sequence) <==> sequence > t.manifests[k].opening
  {
  }

  /** After the opening of the earliest version from which on every version declares the transaction, or after
      the manifest's own opening when it does not declare it. */
  ghost predicate AfterOpening(t: Tables, k: nat, tx: string, sequence: nat)
    requires Chained(t) && k in t.manifests
  {
    if HasNode(t, k, tx)
    then exists n | UnbrokenRun(t, k, tx, n) :: sequence > t.manifests[Back(t, k, n)].opening
    else sequence > t.manifests[k].opening
  }

  lemma AuthorizedMeans(t: Tables, k: nat, tx: string, sequence: nat)
    requires Inv(t) && k in t.manifests
    ensures Authorized(t, k, tx, sequence) <==> AfterOpening(t, k, tx, sequence)
  {
    hide Chained, ManifestsChecked, UniqueVersions, NodesKeyed, EdgesClosed, EpochsMonotone, UniqueSequences;
    hide ScopesAgree, CurrentVersions, UnbrokenRun, Authorized, HasNode, AfterOpening;
    if HasNode(t, k, tx) {
      var n := RunExists(t, k, tx);
      AuthorizedExactly(t, k, tx, n, sequence);
      AfterOpeningAt(t, k, tx, n, sequence);
    } else {
      UndeclaredCountsAfterOpening(t, k, tx, sequence);
      AfterOwnOpening(t, k, tx, sequence);
    }
  }

  lemma AfterOpeningAt(t: Tables, k: nat, tx: string, n: nat, sequence: nat)
    requires Chained(t) && k in t.manifests && HasNode(t, k, tx) && UnbrokenRun(t, k, tx, n)
    ensures AfterOpening(t, k, tx, sequence) <==> sequence > t.manifests[Back(t, k, n)].opening
  {
    hide Chained, HasNode;
    if m :| UnbrokenRun(t, k, tx, m) && sequence > t.manifests[Back(t, k, m)].opening {
      RunUnique(t, k, tx, m, n);
    }
  }

  lemma AfterOwnOpening(t: Tables, k: nat, tx: string, sequence: nat)
    requires Chained(t) && k in t.manifests && !HasNode(t, k, tx)
    ensures AfterOpening(t, k, tx, sequence) <==> sequence > t.manifests[k].opening
  {
  }

  /** Retaining a transaction in the next version leaves the answer unchanged for every sequence. */
  lemma RetainedUnchanged(t: Tables, k: nat, tx: string, sequence: nat)
    requires Inv(t) && k in t.manifests && t.manifests[k].previousId.Some?
    requires HasNode(t, k, tx) && HasNode(t, t.manifests[k].previousId.value, tx)
    ensures Authorized(t, k, tx, sequence) <==> Authorized(t, t.manifests[k].previousId.value, tx, sequence)
  {
    assert Linked(t, k);
    var p := t.manifests[k].previousId.value;
    var c, d := RetainedChain(t, k, tx), RetainedChain(t, p, tx);
    assert c == [k] + d && d != [];
  }

  /** Dropping and re-adding a transaction restarts at the new opening. */
  lemma ReAddedRestarts(t: Tables, k: nat, tx: string, sequence: nat)
    requires Inv(t) && k in t.manifests && t.manifests[k].previousId.Some?
    requires HasNode(t, k, tx) && !HasNode(t, t.manifests[k].previousId.value, tx)
    ensures Authorized(t, k, tx, sequence) <==> sequence > t.manifests[k].opening
  {
    assert Linked(t, k);
    assert RetainedChain(t, k, tx) == [k];
  }

  /** Retention only widens what counts: nothing after a version's own opening is ever excluded. */
  lemma {:induction false} RetentionWidens(t: Tables, k: nat, tx: string, sequence: nat)
    requires Inv(t) && k in t.manifests && sequence > t.manifests[k].opening
    ensures Authorized(t, k, tx, sequence)
    decreases t.manifests[k].version
  {
    assert Linked(t, k);
    var m := t.manifests[k];
    if HasNode(t, k, tx) && m.previousId.Some? && HasNode(t, m.previousId.value, tx) {
      RetentionWidens(t, m.previousId.value, tx, sequence);
      RetainedUnchanged(t, k, tx, sequence);
    } else if HasNode(t, k, tx) {
      assert RetainedChain(t, k, tx) == [k];
    }
  }

  /** Version 1 opens at 0, so observations that arrived before any manifest still count, and go on
      counting in every later version that never dropped the transaction. */
  lemma EarlyObservationsCount(t: Tables, k: nat, tx: string, i: nat)
    requires Inv(t) && k in t.manifests && i < |t.observations|
    requires forall n | 0 <= n < t.manifests[k].version :: HasNode(t, Back(t, k, n), tx)
    ensures Authorized(t, k, tx, t.observations[i].sequence)
  {
    var n := t.manifests[k].version - 1;
    assert UnbrokenRun(t, k, tx, n);
    AuthorizedExactly(t, k, tx, n, t.observations[i].sequence);
    ChainReachesFirst(t, k);
  }

  // ---------------------------------------------------------------- the latest counted observation

  /** The rows the readiness query considers for one manifest version and sequence bound. */
  predicate Counted(t: Tables, event: nat, k: nat, through: nat, i: nat)
    requires Chained(t)
  {
    && i < |t.observations| && t.observations[i].event == event && t.observations[i].sequence <= through
    && Authorized(t, k, t.observations[i].transaction, t.observations[i].sequence)
  }

  /** `DISTINCT ON (transaction) ... ORDER BY epoch DESC, sequence DESC`. */
  predicate IsLatestCounted(t: Tables, event: nat, k: nat, through: nat, tx: string, i: nat)
    requires Chained(t)
  {
    && Counted(t, event, k, through, i) && t.observations[i].transaction == tx
    && forall j | && 0 <= j < |t.observations| && Counted(t, event, k, through, j)
                  && t.observations[j].transaction == tx ::
         NoLaterThan(t.observations[j], t.observations[i])
  }

  lemma LatestCountedUnique(t: Tables, event: nat, k: nat, through: nat, tx: string, i: nat, j: nat)
    requires Inv(t)
    requires IsLatestCounted(t, event, k, through, tx, i) && IsLatestCounted(t, event, k, through, tx, j)
    ensures i == j
  {
    assert NoLaterThan(t.observations[j], t.observations[i]) && NoLaterThan(t.observations[i], t.observations[j]);
  }

  lemma LatestCountedExists(t: Tables, event: nat, k: nat, through: nat, tx: string, j: nat) returns (i: nat)
    requires Chained(t) && Counted(t, event, k, through, j) && t.observations[j].transaction == tx
    ensures IsLatestCounted(t, event, k, through, tx, i)
  {
    var counted := set x: nat |
      x < |t.observations| && Counted(t, event, k, through, x) && t.observations[x].transaction == tx;
    assert j in counted;
    i := LatestAmong(t.observations, counted);
    forall x | 0 <= x < |t.observations| && Counted(t, event, k, through, x) && t.observations[x].transaction == tx
      ensures NoLaterThan(t.observations[x], t.observations[i])
    {
      assert x in counted;
    }
  }

  /** The content hash selected as latest does not depend on the sequence tie-break: every counted row
      of the highest epoch carries it. */
  lemma LatestHashNeedsNoTieBreak(t: Tables, event: nat, k: nat, through: nat, tx: string, i: nat, j: nat)
    requires Inv(t) && IsLatestCounted(t, event, k, through, tx, i)
    requires Counted(t, event, k, through, j) && t.observations[j].transaction == tx
    requires t.observations[j].epoch >= t.observations[i].epoch
    ensures t.observations[j].hash == t.observations[i].hash
  {
    assert NoLaterThan(t.observations[j], t.observations[i]);
    OneHashPerEpoch(t, j, i);
  }
}
