/** The manifest payload: its closed legacy and book-scoped shapes, and its canonical text.
    `AcceptOriginal` follows revision c152, `AcceptForward` the replacement of revision c155. */
module ManifestPayload {
  import opened Wrappers
  import opened Json
  import C = ChildPayload
  import Cohort
  import Sorting
  import Text

  type Child = C.Child

  datatype Scope = Scope(tenant: string, legalBook: string)

  datatype Evidence = Evidence(
    observedAt: string, contentHash: string, recordId: string, revision: string, system: string)

  datatype Manifest = Manifest(
    completion: bool,
    eventId: string,
    eventType: string,
    group: string,
    parent: string,
    portfolio: string,
    version: nat,
    evidence: Evidence,
    scope: Option<Scope>,
    children: seq<Child>)

  datatype ManifestError =
    | NotAnObject
    | ShapeNotCanonical
    | IdentityNotCanonical
    | EvidenceNotCanonical
    | ChildRejected(child: C.PayloadError)
    | CohortRejected(cohort: Cohort.CohortError)

  const COMPLETION := "completion_declared"
  const EVENT_ID := "corporate_action_event_id"
  const EVENT_TYPE := "corporate_action_type"
  const CHILDREN := "expected_children"
  const LEGAL_BOOK := "legal_book_id"
  const GROUP := "linked_transaction_group_id"
  const PARENT := "parent_event_reference"
  const PORTFOLIO := "portfolio_id"
  const EVIDENCE := "source_reference"
  const TENANT := "tenant_id"
  const MANIFEST_VERSION := "version"
  const OBSERVED_AT := "observed_at"
  const CONTENT_HASH := "source_content_hash"
  const RECORD_ID := "source_record_id"
  const REVISION := "source_revision"
  const SYSTEM := "source_system"
  const DATETIME := "datetime"

  // ---------------------------------------------------------------- acceptance

  predicate LegacyKeys(m: map<string, Json>)
  {
    m.Keys == {C.VERSION, COMPLETION, EVENT_ID, EVENT_TYPE, CHILDREN, GROUP, PARENT, PORTFOLIO, EVIDENCE,
               MANIFEST_VERSION}
  }

  predicate ScopedKeys(m: map<string, Json>)
  {
    m.Keys == {C.VERSION, COMPLETION, EVENT_ID, EVENT_TYPE, CHILDREN, LEGAL_BOOK, GROUP, PARENT, PORTFOLIO,
               EVIDENCE, TENANT, MANIFEST_VERSION}
  }

  predicate EvidenceKeys(m: map<string, Json>)
  {
    m.Keys == {OBSERVED_AT, CONTENT_HASH, RECORD_ID, REVISION, SYSTEM}
  }

  predicate HexDigest(s: string)
  {
    |s| == 64 && forall i | 0 <= i < 64 :: '0' <= s[i] <= '9' || 'a' <= s[i] <= 'f'
  }

  /** The version tag test is three-valued: a JSON null makes the comparison unknown, which
      does not raise, and a string "1" has the same text as the number. */
  predicate VersionTag(v: Json)
  {
    v == Num(1, 0) || v == Str("1") || v == Null
  }

  /** The value tests shared by both shapes. */
  predicate ValuesCanonical(m: map<string, Json>)
    requires LegacyKeys(m) || ScopedKeys(m)
  {
    && VersionTag(m[C.VERSION])
    && m[COMPLETION].Bool?
    && m[MANIFEST_VERSION].Num? && m[MANIFEST_VERSION].scale == 0 && m[MANIFEST_VERSION].unscaled >= 1
    && m[CHILDREN].Arr?
    && m[EVIDENCE].Obj?
  }

  predicate IdentityCanonical(m: map<string, Json>)
    requires LegacyKeys(m) || ScopedKeys(m)
  {
    && C.RequiredText(m[EVENT_ID]) && C.RequiredText(m[EVENT_TYPE]) && C.RequiredText(m[GROUP])
    && C.RequiredText(m[PARENT]) && C.RequiredText(m[PORTFOLIO])
  }

  predicate ScopeCanonical(m: map<string, Json>)
    requires ScopedKeys(m)
  {
    C.RequiredText(m[LEGAL_BOOK]) && C.RequiredText(m[TENANT])
  }

  predicate EvidenceCanonical(e: map<string, Json>)
  {
    && EvidenceKeys(e)
    && C.RequiredText(e[OBSERVED_AT]) && C.RequiredText(e[CONTENT_HASH]) && C.RequiredText(e[RECORD_ID])
    && C.RequiredText(e[REVISION]) && C.RequiredText(e[SYSTEM])
    && HexDigest(e[CONTENT_HASH].s)
  }

  function EvidenceOf(e: map<string, Json>): Evidence
    requires EvidenceCanonical(e)
  {
    Evidence(e[OBSERVED_AT].s, e[CONTENT_HASH].s, e[RECORD_ID].s, e[REVISION].s, e[SYSTEM].s)
  }

  /** Every child through the child payload function; the first rejection is raised. */
  function AcceptChildren(items: seq<Json>): Result<seq<Child>, C.PayloadError>
  {
    if items == [] then Ok([])
    else
      match C.Accept(items[0])
      case Err(e) => Err(e)
      case Ok(c) =>
        match AcceptChildren(items[1..])
        case Err(e) => Err(e)
        case Ok(cs) => Ok([c] + cs)
  }

  /** Evidence, children and cohort, after the top-level shape is known. */
  function AcceptContents(m: map<string, Json>, scope: Option<Scope>): Result<Manifest, ManifestError>
    requires (LegacyKeys(m) || ScopedKeys(m)) && ValuesCanonical(m) && IdentityCanonical(m)
  {
    if !EvidenceCanonical(m[EVIDENCE].members) then Err(EvidenceNotCanonical)
    else
      match AcceptChildren(m[CHILDREN].items)
      case Err(e) => Err(ChildRejected(e))
      case Ok(cs) =>
        match Cohort.Check(m[EVENT_TYPE].s, cs)
        case Err(e) => Err(CohortRejected(e))
        case Ok(_) =>
          Ok(Manifest(m[COMPLETION].b, m[EVENT_ID].s, m[EVENT_TYPE].s, m[GROUP].s, m[PARENT].s, m[PORTFOLIO].s,
                      m[MANIFEST_VERSION].unscaled, EvidenceOf(m[EVIDENCE].members), scope, cs))
  }

  /** Revision c152: only the legacy shape. */
  function AcceptOriginal(p: Json): Result<Manifest, ManifestError>
  {
    if !p.Obj? then Err(NotAnObject)
    else if !LegacyKeys(p.members) || !ValuesCanonical(p.members) then Err(ShapeNotCanonical)
    else if !IdentityCanonical(p.members) then Err(IdentityNotCanonical)
    else AcceptContents(p.members, None)
  }

  /** Revision c155: either shape, or after a downgrade only the legacy one. */
  function AcceptForward(p: Json, bookScoped: bool): Result<Manifest, ManifestError>
  {
    if !p.Obj? then Err(NotAnObject)
    else if !LegacyKeys(p.members) && !(bookScoped && ScopedKeys(p.members)) then Err(ShapeNotCanonical)
    else if !ValuesCanonical(p.members) then Err(ShapeNotCanonical)
    else if !IdentityCanonical(p.members) then Err(IdentityNotCanonical)
    else if ScopedKeys(p.members) then
      if !ScopeCanonical(p.members) then Err(IdentityNotCanonical)
      else AcceptContents(p.members, Some(Scope(p.members[TENANT].s, p.members[LEGAL_BOOK].s)))
    else AcceptContents(p.members, None)
  }

  // ---------------------------------------------------------------- canonical text

  predicate ById(a: Child, b: Child)
  {
    Text.Leq(a.id, b.id)
  }

  function NormalAll(cs: seq<Child>): (r: seq<Child>)
    ensures |r| == |cs| && forall i | 0 <= i < |r| :: r[i] == C.Normal(cs[i])
  {
    seq(|cs|, i requires 0 <= i < |cs| => C.Normal(cs[i]))
  }

  /** The children with sorted dependencies, `ORDER BY transaction_id COLLATE "C"`. */
  function NormalChildren(cs: seq<Child>): seq<Child>
  {
    Sorting.Sort(NormalAll(cs), ById)
  }

  function ChildrenJson(cs: seq<Child>): Json
  {
    Arr(seq(|cs|, i requires 0 <= i < |cs| => C.ToJson(cs[i])))
  }

  function TagObserved(e: map<string, Json>): map<string, Json>
    requires OBSERVED_AT in e
  {
    e[OBSERVED_AT := Obj(map[DATETIME := e[OBSERVED_AT]])]
  }

  /** The two nested `jsonb_set` calls: normalised children, and a tagged observation time. */
  function NormalPayload(m: map<string, Json>, cs: seq<Child>): Json
    requires EVIDENCE in m && m[EVIDENCE].Obj? && OBSERVED_AT in m[EVIDENCE].members
  {
    Obj(m[CHILDREN := ChildrenJson(NormalChildren(cs))]
         [EVIDENCE := Obj(TagObserved(m[EVIDENCE].members))])
  }

  lemma AcceptedShape(p: Json, bookScoped: bool)
    requires AcceptForward(p, bookScoped).Ok?
    ensures p.Obj? && (LegacyKeys(p.members) || (bookScoped && ScopedKeys(p.members)))
    ensures ValuesCanonical(p.members) && IdentityCanonical(p.members)
    ensures EvidenceCanonical(p.members[EVIDENCE].members)
    ensures AcceptChildren(p.members[CHILDREN].items) == Ok(AcceptForward(p, bookScoped).value.children)
  {
  }

  function TextForward(p: Json, bookScoped: bool): (r: Result<string, ManifestError>)
    ensures r.Ok? <==> AcceptForward(p, bookScoped).Ok?
  {
    match AcceptForward(p, bookScoped)
    case Err(e) => Err(e)
    case Ok(m) =>
      AcceptedShape(p, bookScoped);
      Ok(Print(NormalPayload(p.members, m.children)))
  }

  lemma AcceptedCohort(p: Json, bookScoped: bool)
    requires AcceptForward(p, bookScoped).Ok?
    ensures var m := AcceptForward(p, bookScoped).value; Cohort.Check(m.eventType, m.children).Ok?
  {
  }

  /** An accepted payload carries a scope exactly when it has both scope keys, as text. */
  lemma AcceptedScopeShape(p: Json)
    requires AcceptForward(p, true).Ok?
    ensures p.Obj?
    ensures var m := AcceptForward(p, true).value;
            || (LegacyKeys(p.members) && m.scope.None?)
            || (ScopedKeys(p.members) && p.members[TENANT].Str? && p.members[LEGAL_BOOK].Str?
                && m.scope == Some(Scope(p.members[TENANT].s, p.members[LEGAL_BOOK].s)))
  {
  }

  lemma ScopeKeysTogether(m: map<string, Json>)
    ensures LegacyKeys(m) ==> TENANT !in m && LEGAL_BOOK !in m
    ensures ScopedKeys(m) ==> TENANT in m && LEGAL_BOOK in m
  {
  }

  lemma TextWhenAccepted(p: Json, bookScoped: bool)
    ensures TextForward(p, bookScoped).Ok? <==> AcceptForward(p, bookScoped).Ok?
  {
  }

  function TextOriginal(p: Json): Result<string, ManifestError>
  {
    match AcceptOriginal(p)
    case Err(e) => Err(e)
    case Ok(m) => Ok(Print(NormalPayload(p.members, m.children)))
  }

  // ---------------------------------------------------------------- c152 and c155

  lemma ShapesDisjoint(m: map<string, Json>)
    ensures !(LegacyKeys(m) && ScopedKeys(m))
  {
  }

  /** Every payload without both scope keys is treated exactly as before; a downgrade restores c152. */
  lemma ForwardExtendsOriginal(p: Json, bookScoped: bool)
    ensures (p.Obj? ==> !ScopedKeys(p.members)) || !bookScoped ==> TextForward(p, bookScoped) == TextOriginal(p)
    ensures p.Obj? && ScopedKeys(p.members) ==> TextOriginal(p) == Err(ShapeNotCanonical)
  {
    hide AcceptContents, ValuesCanonical, IdentityCanonical, LegacyKeys, ScopedKeys, Print, NormalPayload;
    if p.Obj? { ShapesDisjoint(p.members); }
  }

  // ---------------------------------------------------------------- when two texts agree

  /** Equal in every member but the children, which are equal up to the order of the list and
      of each child's dependencies. */
  ghost predicate SameUpToOrder(m: map<string, Json>, cs: seq<Child>, n: map<string, Json>, ds: seq<Child>)
  {
    m - {CHILDREN} == n - {CHILDREN} && multiset(NormalAll(cs)) == multiset(NormalAll(ds))
  }

  lemma ByIdOrder()
    ensures Sorting.TotalPreorder(ById)
  {
    forall a: Child, b: Child ensures ById(a, b) || ById(b, a) { Text.LeqTotal(a.id, b.id); }
    forall a: Child, b: Child, c: Child | ById(a, b) && ById(b, c) ensures ById(a, c) {
      Text.LeqTransitive(a.id, b.id, c.id);
    }
  }

  lemma DistinctTieFree(cs: seq<Child>)
    requires Cohort.DistinctIds(cs)
    ensures Sorting.TieFree(NormalAll(cs), ById)
  {
    var ns := NormalAll(cs);
    forall a, b | a in ns && b in ns && ById(a, b) && ById(b, a) ensures a == b {
      var i :| 0 <= i < |ns| && ns[i] == a;
      var j :| 0 <= j < |ns| && ns[j] == b;
      Text.LeqAntisymmetric(a.id, b.id);
      assert cs[i].id == cs[j].id;
    }
  }

  lemma TieFreePermuted(xs: seq<Child>, ys: seq<Child>)
    requires multiset(xs) == multiset(ys) && Sorting.TieFree(xs, ById)
    ensures Sorting.TieFree(ys, ById)
  {
    forall a, b | a in ys && b in ys && ById(a, b) && ById(b, a) ensures a == b {
      assert a in multiset(ys) && b in multiset(ys);
    }
  }

  lemma NormalChildrenAgree(cs: seq<Child>, ds: seq<Child>)
    requires Cohort.DistinctIds(cs)
    ensures NormalChildren(cs) == NormalChildren(ds) <==> multiset(NormalAll(cs)) == multiset(NormalAll(ds))
  {
    var xs, ys := NormalAll(cs), NormalAll(ds);
    Sorting.SortPermutes(xs, ById);
    Sorting.SortPermutes(ys, ById);
    if multiset(xs) == multiset(ys) {
      ByIdOrder();
      Sorting.SortOrders(xs, ById);
      Sorting.SortOrders(ys, ById);
      DistinctTieFree(cs);
      TieFreePermuted(xs, Sorting.Sort(xs, ById));
      Sorting.OrderedUnique(Sorting.Sort(xs, ById), Sorting.Sort(ys, ById), ById);
    }
  }

  lemma ChildrenJsonInjective(cs: seq<Child>, ds: seq<Child>)
    requires ChildrenJson(cs) == ChildrenJson(ds)
    ensures cs == ds
  {
    var xs, ys := ChildrenJson(cs).items, ChildrenJson(ds).items;
    assert |xs| == |cs| && |ys| == |ds|;
    forall i | 0 <= i < |cs| ensures cs[i] == ds[i] {
      assert xs[i] == C.ToJson(cs[i]) && ys[i] == C.ToJson(ds[i]);
      C.ToJsonInjective(cs[i], ds[i]);
    }
  }

  lemma EvidenceInjective(e: map<string, Json>, f: map<string, Json>)
    requires OBSERVED_AT in e && OBSERVED_AT in f
    requires TagObserved(e) == TagObserved(f)
    ensures e == f
  {
    var x := map[DATETIME := e[OBSERVED_AT]];
    var y := map[DATETIME := f[OBSERVED_AT]];
    var e', f' := TagObserved(e), TagObserved(f);
    assert e'[OBSERVED_AT] == Obj(x) && f'[OBSERVED_AT] == Obj(y);
    assert x[DATETIME] == e[OBSERVED_AT] && y[DATETIME] == f[OBSERVED_AT];
    assert e.Keys == e'.Keys && f.Keys == f'.Keys;
    forall k | k in e ensures e[k] == f[k] {
      if k != OBSERVED_AT { assert e'[k] == e[k] && f'[k] == f[k]; }
    }
  }

  ghost predicate HasEvidence(m: map<string, Json>)
  {
    CHILDREN in m && EVIDENCE in m && m[EVIDENCE].Obj? && OBSERVED_AT in m[EVIDENCE].members
  }

  lemma NormalPayloadAgrees(m: map<string, Json>, cs: seq<Child>, n: map<string, Json>, ds: seq<Child>)
    requires HasEvidence(m) && HasEvidence(n)
    requires NormalPayload(m, cs) == NormalPayload(n, ds)
    ensures NormalChildren(cs) == NormalChildren(ds)
    ensures m - {CHILDREN} == n - {CHILDREN}
  {
    var a, b := NormalPayload(m, cs).members, NormalPayload(n, ds).members;
    assert CHILDREN != EVIDENCE;
    assert a[CHILDREN] == ChildrenJson(NormalChildren(cs)) && b[CHILDREN] == ChildrenJson(NormalChildren(ds));
    ChildrenJsonInjective(NormalChildren(cs), NormalChildren(ds));
    assert a[EVIDENCE] == Obj(TagObserved(m[EVIDENCE].members)) && b[EVIDENCE] == Obj(TagObserved(n[EVIDENCE].members));
    EvidenceInjective(m[EVIDENCE].members, n[EVIDENCE].members);
    assert a.Keys == m.Keys && b.Keys == n.Keys;
    forall k | k in m && k != CHILDREN ensures m[k] == n[k] {
      if k != EVIDENCE { assert a[k] == m[k] && b[k] == n[k]; }
    }
  }

  lemma SameNormalPayload(m: map<string, Json>, cs: seq<Child>, n: map<string, Json>, ds: seq<Child>)
    requires HasEvidence(m) && HasEvidence(n)
    requires NormalChildren(cs) == NormalChildren(ds) && m - {CHILDREN} == n - {CHILDREN}
    ensures NormalPayload(m, cs) == NormalPayload(n, ds)
  {
    var a, b := NormalPayload(m, cs).members, NormalPayload(n, ds).members;
    forall k | k in m && k != CHILDREN ensures k in n && m[k] == n[k] {
      assert k in m - {CHILDREN};
    }
    forall k | k in n && k != CHILDREN ensures k in m {
      assert k in n - {CHILDREN};
    }
    assert EVIDENCE in m && m[EVIDENCE] == n[EVIDENCE] by { assert EVIDENCE != CHILDREN; }
    assert a.Keys == b.Keys;
    forall k | k in a ensures a[k] == b[k] {
    }
    assert a == b;
  }

  /** With distinct child ids, two accepted manifests have the same canonical text exactly when they
      are equal up to reordering children and dependencies. */
  lemma TextAgreesExactly(p: Json, q: Json, bookScoped: bool)
    requires TextForward(p, bookScoped).Ok? && TextForward(q, bookScoped).Ok?
    requires Cohort.DistinctIds(AcceptForward(p, bookScoped).value.children)
    ensures TextForward(p, bookScoped) == TextForward(q, bookScoped) <==>
            SameUpToOrder(p.members, AcceptForward(p, bookScoped).value.children,
                          q.members, AcceptForward(q, bookScoped).value.children)
  {
    AcceptedShape(p, bookScoped);
    AcceptedShape(q, bookScoped);
    var cs, ds := AcceptForward(p, bookScoped).value.children, AcceptForward(q, bookScoped).value.children;
    NormalChildrenAgree(cs, ds);
    if TextForward(p, bookScoped) == TextForward(q, bookScoped) {
      PrintInjective(NormalPayload(p.members, cs), NormalPayload(q.members, ds));
      NormalPayloadAgrees(p.members, cs, q.members, ds);
    }
    if SameUpToOrder(p.members, cs, q.members, ds) {
      SameNormalPayload(p.members, cs, q.members, ds);
    }
  }

  lemma NormalPayloadKeys(m: map<string, Json>, cs: seq<Child>)
    requires HasEvidence(m)
    ensures NormalPayload(m, cs).members.Keys == m.Keys
  {
  }

  lemma AcceptedHasEvidence(p: Json, bookScoped: bool)
    requires AcceptForward(p, bookScoped).Ok?
    ensures p.Obj? && HasEvidence(p.members)
  {
  }

  /** Payloads with the same text have the same keys, so a legacy and a book-scoped payload
      never share a text. */
  lemma ShapesNeverShareText(p: Json, q: Json)
    requires TextForward(p, true).Ok? && TextForward(q, true).Ok?
    requires TextForward(p, true) == TextForward(q, true)
    ensures LegacyKeys(p.members) <==> LegacyKeys(q.members)
    ensures ScopedKeys(p.members) <==> ScopedKeys(q.members)
  {
    AcceptedHasEvidence(p, true);
    AcceptedHasEvidence(q, true);
    var cs, ds := AcceptForward(p, true).value.children, AcceptForward(q, true).value.children;
    PrintInjective(NormalPayload(p.members, cs), NormalPayload(q.members, ds));
    NormalPayloadKeys(p.members, cs);
    NormalPayloadKeys(q.members, ds);
  }
}
