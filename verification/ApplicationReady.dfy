/** The application's manifests in the database: which of them can be READY, with which plan, and under
    which hashes. */
module ApplicationReady {
  import opened Wrappers
  import opened Json
  import opened Ledger
  import opened Readiness
  import opened ReadinessSpec
  import opened ReadyAttainable
  import opened DeclaredRows
  import opened Timestamp
  import A = ApplicationManifest
  import L = Lineage
  import PA = PlanAgreement
  import EG = EventGraph
  import CF = CohortFindings
  import Sorting
  import Text
  import C = ChildPayload
  import M = ManifestPayload
  import R = ManifestRoundTrip

  /** What the constructors of the manifest, its source reference and its children guarantee, of texts that
      a column can hold; the observation time lies in the calendar of UTC. */
  ghost predicate Built(a: A.Manifest)
  {
    && Text.Normalized(a.eventId) && Text.Normalized(a.tenant) && Text.Normalized(a.legalBook)
    && Text.Normalized(a.portfolio) && Text.Normalized(a.group) && Text.Normalized(a.parent)
    && Text.Normalized(a.eventType) && a.version >= 1 && (forall i | 0 <= i < |a.children| :: C.Valid(a.children[i]))
    && Text.Normalized(a.source.system) && Text.Normalized(a.source.recordId) && Text.Normalized(a.source.revision)
    && M.HexDigest(a.source.contentHash) && ToUtc(a.source.observedAt).Ok?
  }

  /** The manifest's children as they are stored and read back for evaluation. */
  function StoredChildren(a: A.Manifest): seq<C.Child>
  {
    M.NormalAll(A.SortedChildren(a))
  }

  // ---------------------------------------------------------------- what is built is normal

  lemma SortedTexts(c: C.Child)
    requires C.Valid(c)
    ensures C.Valid(C.Normal(c))
  {
    var ds := C.Normal(c).deps;
    Sorting.SortPermutes(c.deps, Text.Leq);
    forall i | 0 <= i < |ds| ensures Text.Normalized(ds[i]) {
      assert ds[i] in multiset(ds);
      var j :| 0 <= j < |c.deps| && c.deps[j] == ds[i];
    }
  }

  lemma StoredChildrenValid(a: A.Manifest)
    requires forall i | 0 <= i < |a.children| :: C.Valid(a.children[i])
    ensures forall i | 0 <= i < |StoredChildren(a)| :: C.Valid(StoredChildren(a)[i])
  {
    hide C.Valid, C.Normal, Sorting.Sort;
    var cs := A.SortedChildren(a);
    Sorting.SortPermutes(a.children, M.ById);
    forall i | 0 <= i < |cs| ensures C.Valid(C.Normal(cs[i])) {
      assert cs[i] in multiset(cs);
      var j :| 0 <= j < |a.children| && a.children[j] == cs[i];
      SortedTexts(cs[i]);
    }
  }

  lemma DigestNormalized(d: string)
    requires M.HexDigest(d)
    ensures Text.Normalized(d)
  {
  }

  lemma BuiltNormal(a: A.Manifest)
    requires Built(a)
    ensures R.Normal(A.ManifestOf(a)) && TimestampText(A.ManifestOf(a).evidence.observedAt)
  {
    hide C.Valid, Text.Normalized, TimestampText, InColumn, Rendered, IsoFormat, ToUtc, M.HexDigest, AwareInstant;
    IsoIsRendered(a.source.observedAt);
    TimestampNormalized(IsoFormat(ToUtc(a.source.observedAt).value));
    DigestNormalized(a.source.contentHash);
    StoredChildrenValid(a);
    var m := A.ManifestOf(a);
    assert m.children == StoredChildren(a);
    assert R.ValidEvidence(m.evidence);
    assert R.ValidScope(m.scope);
  }

  // ---------------------------------------------------------------- counts

  lemma {:induction false} CountAppended(cs: seq<C.Child>, c: C.Child)
    ensures DependencyCount([c] + cs) == |c.deps| + DependencyCount(cs)
    decreases |cs|
  {
    var ds := [c] + cs;
    if cs == [] {
      assert ds[..0] == [] && ds[|ds| - 1] == c;
    } else {
      assert ds[..|ds| - 1] == [c] + cs[..|cs| - 1];
      CountAppended(cs[..|cs| - 1], c);
    }
  }

  lemma {:induction false} CountInserted(c: C.Child, cs: seq<C.Child>)
    ensures DependencyCount(Sorting.Insert(c, cs, M.ById)) == |c.deps| + DependencyCount(cs)
    decreases |cs|
  {
    hide DependencyCount, M.ById;
    CountAppended(cs, c);
    if cs != [] && !M.ById(c, cs[0]) {
      CountInserted(c, cs[1..]);
      CountAppended(Sorting.Insert(c, cs[1..], M.ById), cs[0]);
      CountAppended(cs[1..], cs[0]);
      assert cs == [cs[0]] + cs[1..];
    } else if cs == [] {
      assert [c] + cs == [c];
    }
  }

  lemma {:induction false} CountSorted(cs: seq<C.Child>)
    ensures DependencyCount(Sorting.Sort(cs, M.ById)) == DependencyCount(cs)
    decreases |cs|
  {
    hide DependencyCount, Sorting.Insert;
    if cs != [] {
      CountSorted(cs[1..]);
      CountInserted(cs[0], Sorting.Sort(cs[1..], M.ById));
      CountAppended(cs[1..], cs[0]);
      assert cs == [cs[0]] + cs[1..];
    }
  }

  lemma {:induction false} CountNormal(cs: seq<C.Child>)
    ensures DependencyCount(M.NormalAll(cs)) == DependencyCount(cs)
    decreases |cs|
  {
    hide Text.Leq, Sorting.Sort;
    if cs != [] {
      var ns := M.NormalAll(cs);
      CountNormal(cs[..|cs| - 1]);
      assert ns[..|ns| - 1] == M.NormalAll(cs[..|cs| - 1]);
      Sorting.SortPermutes(cs[|cs| - 1].deps, Text.Leq);
    }
  }

  /** Storing changes neither the number of children and dependencies nor a hint. */
  lemma StoredCounts(a: A.Manifest)
    ensures |StoredChildren(a)| == |a.children| && DependencyCount(StoredChildren(a)) == DependencyCount(a.children)
    ensures HintsFit(StoredChildren(a)) <==> HintsFit(a.children)
  {
    hide DependencyCount, Sorting.Sort, Fits;
    var cs := A.SortedChildren(a);
    Sorting.SortPermutes(a.children, M.ById);
    CountSorted(a.children);
    CountNormal(cs);
    forall i | 0 <= i < |cs| ensures StoredChildren(a)[i].hint == cs[i].hint && cs[i] in a.children {
      assert cs[i] in multiset(cs);
    }
    forall i | 0 <= i < |a.children| ensures a.children[i] in cs { assert a.children[i] in multiset(a.children); }
  }

  /** What the integer columns ask of a manifest. */
  ghost predicate IntegersFit(a: A.Manifest)
  {
    Fits(a.version) && Fits(|a.children|) && Fits(DependencyCount(a.children)) && HintsFit(a.children)
  }

  // ---------------------------------------------------------------- the theorem

  /** A manifest that the application built can be READY exactly when it is complete, its integers fit and the
      application finds nothing wrong with it; the plan is the application's. */
  lemma ApplicationReadyExactly(h: string -> string, a: A.Manifest, prints: seq<string>, answer: EG.Plan,
                                plan: seq<string>, current: bool)
    requires CollisionFree(h) && Built(a)
    requires |prints| == |StoredChildren(a)| && EG.Answers(PA.DirectedNodes(StoredChildren(a), prints), answer)
    ensures CanBeReady(h, A.PayloadOf(a), plan, current) <==>
              && a.completion && IntegersFit(a)
              && answer.Valid? && CF.SemanticFindings(a.eventType, StoredChildren(a)) == {}
              && EG.IdsOf(answer.order) == plan
  {
    hide CollisionFree, EG.Answers, EG.IdsOf, CF.SemanticFindings, CanBeReady, R.Members, R.Normal, PA.DirectedNodes;
    hide Text.Normalized, TimestampText, DependencyCount, HintsFit, A.PayloadOf, IsoFormat, ToUtc, A.SortedChildren;
    var m := A.ManifestOf(a);
    BuiltNormal(a);
    StoredCounts(a);
    A.PayloadWritten(a);
    NothingFoundIsReady(h, m, prints, answer, plan, current);
  }

  /** The execution plan as the application hashes it. */
  function PlanLineage(manifestHash: string, order: seq<string>): L.Value
  {
    L.Dict([L.Entry("canonical_payload_version", L.Whole(1)), L.Entry("manifest_content_hash", L.Words(manifestHash)),
            L.Entry("ordered_transaction_ids", A.TextsValue(order))])
  }

  lemma PlanSettled(manifestHash: string, order: seq<string>)
    ensures L.Settled(PlanLineage(manifestHash, order))
  {
    hide A.TextsValue;
    A.TextsSettled(order);
    PlanKeys();
  }

  /** The text whose hash is the plan's content hash. */
  function PlanText(manifestHash: string, order: seq<string>): string
  {
    var v := PlanLineage(manifestHash, order);
    PlanSettled(manifestHash, order);
    L.SettledNormal(v);
    L.Dumps(L.Normalised(v))
  }

  lemma PlanHashAgrees(manifestHash: string, order: seq<string>)
    ensures PlanText(manifestHash, order) == Print(PlanDocument(manifestHash, order))
  {
    hide A.TextsValue, C.TextsJson;
    var v, m := PlanLineage(manifestHash, order), PlanDocument(manifestHash, order).members;
    A.TextsSettled(order);
    PlanSettled(manifestHash, order);
    L.SettledNormal(v);
    assert v.entries[0].key in m && v.entries[1].key in m && v.entries[2].key in m;
    L.DictIs(v, m);
    L.DumpsIsPrint(v);
  }

  lemma PlanKeys()
    ensures |"canonical_payload_version"| == 25 && |"manifest_content_hash"| == 21 && |"ordered_transaction_ids"| == 23
  {
  }

  /** A READY evaluation of the application's payload carries the application's own content hashes. */
  lemma ReadyHashes(t: Tables, h: string -> string, e: Evaluation, a: A.Manifest, plan: seq<string>, current: bool)
    requires CollisionFree(h) && ToUtc(a.source.observedAt).Ok? && ReadyIn(t, h, e, A.PayloadOf(a), plan, current)
    ensures e.manifestHash == Some(h(A.ContentText(a))) && e.planHash == Some(h(PlanText(h(A.ContentText(a)), plan)))
  {
    hide *;
    var p := A.PayloadOf(a);
    ReadyPayload(t, h, e, p, plan, current);
    var m := M.AcceptForward(p, true).value;
    A.HashTextAgrees(a);
    SpecHashes(t, h, e, plan, m);
    ReadyStored(t, h, e, p, plan, current);
    PlanHashAgrees(h(A.ContentText(a)), plan);
  }

  lemma ReadyStored(t: Tables, h: string -> string, e: Evaluation, p: Json, plan: seq<string>, current: bool)
    requires ReadyIn(t, h, e, p, plan, current)
    ensures e.manifest.Some? && e.manifest.value in t.manifests && t.manifests[e.manifest.value].payload == p
  {
    hide Inv, Accepted;
  }

  lemma SpecHashes(t: Tables, h: string -> string, e: Evaluation, plan: seq<string>, m: M.Manifest)
    requires Inv(t) && Spec(t, h, e, plan, m)
    ensures e.manifest.Some? && e.manifest.value in t.manifests
    ensures var p := t.manifests[e.manifest.value].payload;
            && M.TextForward(p, true).Ok?
            && var hash := h(M.TextForward(p, true).value);
            e.manifestHash == Some(hash) && e.planHash == Some(h(Print(PlanDocument(hash, plan))))
  {
    hide Inv, M.AcceptForward, M.TextForward, NodePlan, LeastPlan, PayloadSpec, ObservationSpec, Print, PlanDocument;
    M.TextWhenAccepted(t.manifests[e.manifest.value].payload, true);
  }
}
