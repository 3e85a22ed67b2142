/** Writing a manifest as a payload and reading it back. */
module ManifestRoundTrip {
  import opened Wrappers
  import opened Json
  import opened ManifestPayload
  import C = ChildPayload
  import Cohort
  import Text

  function EvidenceJson(e: Evidence): map<string, Json>
  {
    map[OBSERVED_AT := Str(e.observedAt), CONTENT_HASH := Str(e.contentHash), RECORD_ID := Str(e.recordId),
        REVISION := Str(e.revision), SYSTEM := Str(e.system)]
  }

  /** The ten members every payload has. */
  function LegacyMembers(m: Manifest): map<string, Json>
  {
    map[C.VERSION := Num(1, 0), COMPLETION := Bool(m.completion), EVENT_ID := Str(m.eventId),
        EVENT_TYPE := Str(m.eventType), CHILDREN := ChildrenJson(m.children), GROUP := Str(m.group),
        PARENT := Str(m.parent), PORTFOLIO := Str(m.portfolio), EVIDENCE := Obj(EvidenceJson(m.evidence)),
        MANIFEST_VERSION := Num(m.version, 0)]
  }

  function Members(m: Manifest): map<string, Json>
  {
    if m.scope.None? then LegacyMembers(m)
    else LegacyMembers(m)[LEGAL_BOOK := Str(m.scope.value.legalBook)][TENANT := Str(m.scope.value.tenant)]
  }

  predicate ValidEvidence(e: Evidence)
  {
    && Text.Normalized(e.observedAt) && Text.Normalized(e.contentHash) && Text.Normalized(e.recordId)
    && Text.Normalized(e.revision) && Text.Normalized(e.system) && HexDigest(e.contentHash)
  }

  predicate ValidScope(s: Option<Scope>)
  {
    s.Some? ==> Text.Normalized(s.value.tenant) && Text.Normalized(s.value.legalBook)
  }

  /** Every value of the manifest is normal; its cohort may still be wrong. */
  predicate Normal(m: Manifest)
  {
    && Text.Normalized(m.eventId) && Text.Normalized(m.eventType) && Text.Normalized(m.group)
    && Text.Normalized(m.parent) && Text.Normalized(m.portfolio) && m.version >= 1
    && ValidEvidence(m.evidence) && ValidScope(m.scope)
    && forall i | 0 <= i < |m.children| :: C.Valid(m.children[i])
  }

  predicate Valid(m: Manifest)
  {
    Normal(m) && Cohort.Check(m.eventType, m.children).Ok?
  }

  // ---------------------------------------------------------------- written, then read

  lemma EvidenceWritten(e: Evidence)
    requires ValidEvidence(e)
    ensures EvidenceCanonical(EvidenceJson(e)) && EvidenceOf(EvidenceJson(e)) == e
  {
  }

  lemma {:induction false} ChildrenWritten(cs: seq<C.Child>)
    requires forall i | 0 <= i < |cs| :: C.Valid(cs[i])
    ensures AcceptChildren(ChildrenJson(cs).items) == Ok(cs)
  {
    hide C.Valid, C.Accept, C.ToJson;
    if cs != [] {
      var items := ChildrenJson(cs).items;
      C.AcceptComplete(cs[0]);
      ChildrenWritten(cs[1..]);
      assert items[1..] == ChildrenJson(cs[1..]).items;
      assert cs == [cs[0]] + cs[1..];
    }
  }

  /** The values under the ten keys. */
  ghost predicate Holds(p: map<string, Json>, m: Manifest)
  {
    && C.VERSION in p && COMPLETION in p && EVENT_ID in p && EVENT_TYPE in p && CHILDREN in p && GROUP in p
    && PARENT in p && PORTFOLIO in p && EVIDENCE in p && MANIFEST_VERSION in p
    && p[C.VERSION] == Num(1, 0) && p[COMPLETION] == Bool(m.completion) && p[EVENT_ID] == Str(m.eventId)
    && p[EVENT_TYPE] == Str(m.eventType) && p[CHILDREN] == ChildrenJson(m.children) && p[GROUP] == Str(m.group)
    && p[PARENT] == Str(m.parent) && p[PORTFOLIO] == Str(m.portfolio)
    && p[EVIDENCE] == Obj(EvidenceJson(m.evidence)) && p[MANIFEST_VERSION] == Num(m.version, 0)
  }

  lemma LegacyHolds(m: Manifest)
    ensures Holds(LegacyMembers(m), m) && LegacyKeys(LegacyMembers(m))
  {
    hide ChildrenJson, EvidenceJson;
  }

  lemma ScopeAdded(p: map<string, Json>, m: Manifest, book: Json, tenant: Json)
    requires Holds(p, m) && LegacyKeys(p)
    ensures var q := p[LEGAL_BOOK := book][TENANT := tenant];
            Holds(q, m) && ScopedKeys(q) && q[LEGAL_BOOK] == book && q[TENANT] == tenant
  {
    hide ChildrenJson, EvidenceJson;
  }

  lemma ContentsAccepted(p: map<string, Json>, m: Manifest, scope: Option<Scope>)
    requires Holds(p, m) && (LegacyKeys(p) || ScopedKeys(p)) && Valid(m)
    ensures ValuesCanonical(p) && IdentityCanonical(p) && AcceptContents(p, scope) == Ok(m.(scope := scope))
  {
    hide LegacyKeys, ScopedKeys, EvidenceCanonical, EvidenceOf, EvidenceJson, AcceptChildren;
    hide Cohort.Check, ValidEvidence, C.Valid;
    EvidenceWritten(m.evidence);
    ChildrenWritten(m.children);
  }

  /** Every valid manifest, written as a payload, is accepted and read back as itself. */
  lemma AcceptComplete(m: Manifest)
    requires Valid(m)
    ensures AcceptForward(Obj(Members(m)), true) == Ok(m)
  {
    hide LegacyMembers, Holds, AcceptContents, ValuesCanonical, IdentityCanonical, LegacyKeys, ScopedKeys;
    LegacyHolds(m);
    var p := Members(m);
    if m.scope.None? {
      ShapesDisjoint(p);
      ContentsAccepted(p, m, None);
    } else {
      var s := m.scope.value;
      ScopeAdded(LegacyMembers(m), m, Str(s.legalBook), Str(s.tenant));
      ContentsAccepted(p, m, m.scope);
    }
  }

  // ---------------------------------------------------------------- read, then written

  lemma {:induction false} ChildrenRead(items: seq<Json>)
    requires AcceptChildren(items).Ok?
    ensures var cs := AcceptChildren(items).value;
            ChildrenJson(cs) == Arr(items) && forall i | 0 <= i < |cs| :: C.Valid(cs[i])
  {
    hide C.Valid, C.Accept, C.ToJson;
    if items == [] {
      assert ChildrenJson([]).items == [];
    } else {
      var cs := AcceptChildren(items).value;
      C.AcceptSound(items[0]);
      ChildrenRead(items[1..]);
      assert cs == [cs[0]] + cs[1..] && items == [items[0]] + items[1..];
      assert ChildrenJson(cs).items == [C.ToJson(cs[0])] + ChildrenJson(cs[1..]).items;
    }
  }

  lemma EvidenceRead(e: map<string, Json>)
    requires EvidenceCanonical(e)
    ensures ValidEvidence(EvidenceOf(e)) && EvidenceJson(EvidenceOf(e)) == e
  {
  }

  lemma ContentsRead(p: map<string, Json>, scope: Option<Scope>)
    requires (LegacyKeys(p) || ScopedKeys(p)) && ValuesCanonical(p) && IdentityCanonical(p) && ValidScope(scope)
    requires AcceptContents(p, scope).Ok?
    ensures var m := AcceptContents(p, scope).value;
            Valid(m) && m.scope == scope && Holds(p[C.VERSION := Num(1, 0)], m)
  {
    hide AcceptChildren, ChildrenJson, EvidenceCanonical, EvidenceOf, EvidenceJson, ValidEvidence;
    hide C.Valid, Cohort.Check;
    var m := AcceptContents(p, scope).value;
    EvidenceRead(p[EVIDENCE].members);
    ChildrenRead(p[CHILDREN].items);
  }

  /** The ten or twelve values determine the payload. */
  lemma HoldsAll(p: map<string, Json>, m: Manifest)
    requires Holds(p, m)
    requires if m.scope.None? then LegacyKeys(p)
             else && ScopedKeys(p) && p[LEGAL_BOOK] == Str(m.scope.value.legalBook)
                  && p[TENANT] == Str(m.scope.value.tenant)
    ensures p == Members(m)
  {
    hide ChildrenJson, EvidenceJson;
    LegacyHolds(m);
    if m.scope.Some? {
      ScopeAdded(LegacyMembers(m), m, Str(m.scope.value.legalBook), Str(m.scope.value.tenant));
    }
    hide LegacyMembers;
    var q := Members(m);
    forall k | k in p ensures k in q && p[k] == q[k] {}
    assert p.Keys == q.Keys;
  }

  lemma TagKeepsKeys(p: map<string, Json>)
    requires LegacyKeys(p) || ScopedKeys(p)
    ensures LegacyKeys(p[C.VERSION := Num(1, 0)]) <==> LegacyKeys(p)
    ensures ScopedKeys(p[C.VERSION := Num(1, 0)]) <==> ScopedKeys(p)
    ensures forall k | k in p && k != C.VERSION :: p[C.VERSION := Num(1, 0)][k] == p[k]
  {
    assert p[C.VERSION := Num(1, 0)].Keys == p.Keys;
  }

  /** An accepted payload is what its manifest is written as, up to the version tag, and the manifest
      is valid. */
  lemma AcceptSound(p: Json)
    requires AcceptForward(p, true).Ok?
    ensures var m := AcceptForward(p, true).value;
            p.Obj? && Valid(m) && p.members[C.VERSION := Num(1, 0)] == Members(m)
  {
    hide AcceptContents, Holds, Valid, Members, ValuesCanonical, IdentityCanonical, LegacyKeys;
    var q := p.members;
    ShapesDisjoint(q);
    var scope := if ScopedKeys(q) then Some(Scope(q[TENANT].s, q[LEGAL_BOOK].s)) else None;
    assert AcceptForward(p, true) == AcceptContents(q, scope);
    ContentsRead(q, scope);
    TagKeepsKeys(q);
    HoldsAll(q[C.VERSION := Num(1, 0)], AcceptForward(p, true).value);
  }

  /** Different manifests are written differently. */
  lemma MembersInjective(m: Manifest, n: Manifest)
    requires Members(m) == Members(n)
    ensures m == n
  {
    hide LegacyMembers, LegacyKeys, ScopedKeys;
    MembersHold(m);
    MembersHold(n);
    HeldOnce(Members(m), m, n);
    ShapesDisjoint(Members(m));
  }

  lemma MembersHold(m: Manifest)
    ensures Holds(Members(m), m)
    ensures if m.scope.None? then LegacyKeys(Members(m))
            else && ScopedKeys(Members(m)) && Members(m)[LEGAL_BOOK] == Str(m.scope.value.legalBook)
                 && Members(m)[TENANT] == Str(m.scope.value.tenant)
  {
    hide LegacyMembers, LegacyKeys, Holds;
    LegacyHolds(m);
    if m.scope.Some? {
      ScopeAdded(LegacyMembers(m), m, Str(m.scope.value.legalBook), Str(m.scope.value.tenant));
    }
  }

  lemma HeldOnce(p: map<string, Json>, m: Manifest, n: Manifest)
    requires Holds(p, m) && Holds(p, n)
    ensures m.(scope := None) == n.(scope := None)
  {
    hide ChildrenJson;
    ChildrenJsonInjective(m.children, n.children);
    assert EvidenceJson(m.evidence)[OBSERVED_AT] == EvidenceJson(n.evidence)[OBSERVED_AT];
    assert EvidenceJson(m.evidence)[CONTENT_HASH] == EvidenceJson(n.evidence)[CONTENT_HASH];
    assert EvidenceJson(m.evidence)[RECORD_ID] == EvidenceJson(n.evidence)[RECORD_ID];
    assert EvidenceJson(m.evidence)[REVISION] == EvidenceJson(n.evidence)[REVISION];
    assert EvidenceJson(m.evidence)[SYSTEM] == EvidenceJson(n.evidence)[SYSTEM];
  }

  /** What is written can only be read as the manifest it was written from. */
  lemma ReadAsWritten(m: Manifest)
    requires AcceptForward(Obj(Members(m)), true).Ok?
    ensures AcceptForward(Obj(Members(m)), true) == Ok(m) && Valid(m)
  {
    hide AcceptForward, Members, Valid;
    var p := Obj(Members(m));
    AcceptSound(p);
    TaggedOne(m);
    MembersInjective(AcceptForward(p, true).value, m);
  }

  /** A normal manifest's payload is accepted exactly when its cohort is. */
  lemma WrittenAcceptedExactly(m: Manifest)
    requires Normal(m)
    ensures AcceptForward(Obj(Members(m)), true).Ok? <==> Cohort.Check(m.eventType, m.children).Ok?
    ensures AcceptForward(Obj(Members(m)), true).Ok? ==> AcceptForward(Obj(Members(m)), true) == Ok(m)
  {
    hide AcceptForward, Members, Normal, Cohort.Check;
    if AcceptForward(Obj(Members(m)), true).Ok? { ReadAsWritten(m); }
    if Cohort.Check(m.eventType, m.children).Ok? { AcceptComplete(m); }
  }

  lemma TaggedOne(m: Manifest)
    ensures Members(m)[C.VERSION := Num(1, 0)] == Members(m)
  {
    hide LegacyMembers, Members;
    MembersHold(m);
  }

  // ---------------------------------------------------------------- the version tag

  /** The ten values, with any tag in place of the canonical one. */
  function Tagged(m: Manifest, v: Json): Json
  {
    Obj(Members(m)[C.VERSION := v])
  }

  /** A payload of the right shape whose tag is the only thing that may be off. */
  lemma TaggedShape(m: Manifest, v: Json)
    ensures var p, q := Tagged(m, v).members, Members(m);
            && C.VERSION in q && p[C.VERSION] == v && p.Keys == q.Keys
            && (LegacyKeys(p) <==> LegacyKeys(q)) && (ScopedKeys(p) <==> ScopedKeys(q))
            && forall k | k in q && k != C.VERSION :: p[k] == q[k]
  {
    hide LegacyMembers, LegacyKeys, ScopedKeys;
    LegacyHolds(m);
    hide ChildrenJson, EvidenceJson;
    var p, q := Tagged(m, v).members, Members(m);
    assert C.VERSION in LegacyMembers(m);
    assert p.Keys == q.Keys;
    SameKeys(p, q);
  }

  lemma SameKeys(p: map<string, Json>, q: map<string, Json>)
    requires p.Keys == q.Keys
    ensures LegacyKeys(p) <==> LegacyKeys(q)
    ensures ScopedKeys(p) <==> ScopedKeys(q)
  {
  }

  /** Two payloads that agree off the tag are accepted alike when both tags are. */
  lemma TagIsOnlyTested(p: map<string, Json>, q: map<string, Json>)
    requires p.Keys == q.Keys && C.VERSION in p && forall k | k in q && k != C.VERSION :: p[k] == q[k]
    requires AcceptForward(Obj(q), true).Ok?
    ensures AcceptForward(Obj(p), true).Ok? <==> VersionTag(p[C.VERSION])
    ensures VersionTag(p[C.VERSION]) ==> AcceptForward(Obj(p), true) == AcceptForward(Obj(q), true)
  {
    SameKeys(p, q);
    hide EvidenceCanonical, EvidenceOf, AcceptChildren, Cohort.Check, VersionTag;
  }

  /** Exactly three tags are accepted with a valid manifest's payload: the number 1, the text "1" and null. */
  lemma TagExactly(m: Manifest, v: Json)
    requires Valid(m)
    ensures AcceptForward(Tagged(m, v), true).Ok? <==> v in {Num(1, 0), Str("1"), Null}
    ensures v in {Num(1, 0), Str("1"), Null} ==> AcceptForward(Tagged(m, v), true) == Ok(m)
  {
    hide AcceptForward, Members, Valid;
    AcceptComplete(m);
    TaggedShape(m, v);
    TagIsOnlyTested(Tagged(m, v).members, Members(m));
  }

  /** Two accepted tags of one manifest have different canonical texts, so one manifest has three hashes. */
  lemma TagsSplitText(m: Manifest, v: Json, w: Json)
    requires Valid(m) && v in {Num(1, 0), Str("1"), Null} && w in {Num(1, 0), Str("1"), Null} && v != w
    ensures TextForward(Tagged(m, v), true).Ok? && TextForward(Tagged(m, w), true).Ok?
    ensures TextForward(Tagged(m, v), true) != TextForward(Tagged(m, w), true)
  {
    hide AcceptForward, Members, Valid, NormalPayload, HasEvidence;
    TagExactly(m, v);
    TagExactly(m, w);
    var p, q := Tagged(m, v).members, Tagged(m, w).members;
    TaggedShape(m, v);
    TaggedShape(m, w);
    AcceptedHasEvidence(Obj(p), true);
    AcceptedHasEvidence(Obj(q), true);
    TagInText(p, m.children, q, m.children);
  }

  lemma TagInText(p: map<string, Json>, cs: seq<C.Child>, q: map<string, Json>, ds: seq<C.Child>)
    requires HasEvidence(p) && HasEvidence(q) && C.VERSION in p && C.VERSION in q && p[C.VERSION] != q[C.VERSION]
    ensures Print(NormalPayload(p, cs)) != Print(NormalPayload(q, ds))
  {
    hide NormalPayload, Print;
    assert (p - {CHILDREN})[C.VERSION] == p[C.VERSION] && (q - {CHILDREN})[C.VERSION] == q[C.VERSION] by {
      assert C.VERSION != CHILDREN;
    }
    if Print(NormalPayload(p, cs)) == Print(NormalPayload(q, ds)) {
      PrintInjective(NormalPayload(p, cs), NormalPayload(q, ds));
      NormalPayloadAgrees(p, cs, q, ds);
    }
  }

  /** A payload is accepted as a manifest exactly when the manifest is valid and the payload is what it
      is written as, under one of the three tags. */
  lemma AcceptExactly(p: Json, m: Manifest)
    ensures AcceptForward(p, true) == Ok(m) <==>
              Valid(m) && exists v | v in {Num(1, 0), Str("1"), Null} :: p == Tagged(m, v)
  {
    hide AcceptForward, Members, Valid;
    if AcceptForward(p, true) == Ok(m) {
      AcceptSound(p);
      AcceptedTag(p);
      var v := p.members[C.VERSION];
      assert p.members == p.members[C.VERSION := Num(1, 0)][C.VERSION := v];
      assert p == Tagged(m, v);
    }
    if v :| Valid(m) && v in {Num(1, 0), Str("1"), Null} && p == Tagged(m, v) {
      TagExactly(m, v);
    }
  }

  lemma AcceptedTag(p: Json)
    requires AcceptForward(p, true).Ok?
    ensures p.Obj? && C.VERSION in p.members && p.members[C.VERSION] in {Num(1, 0), Str("1"), Null}
  {
    AcceptedShape(p, true);
    hide AcceptForward;
  }
}
