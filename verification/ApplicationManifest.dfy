/** A manifest as the application holds it: what it hashes, what it stores, and when that can be READY. */
module ApplicationManifest {
  import opened Wrappers
  import opened Json
  import opened Timestamp
  import opened Schedule
  import L = Lineage
  import Sorting
  import Text
  import C = ChildPayload
  import M = ManifestPayload
  import R = ManifestRoundTrip

  datatype Source = Source(system: string, recordId: string, revision: string, contentHash: string, observedAt: Aware)

  datatype Manifest = Manifest(eventId: string, tenant: string, legalBook: string, portfolio: string, group: string,
                               parent: string, eventType: string, version: nat, completion: bool,
                               children: seq<C.Child>, source: Source)

  // ---------------------------------------------------------------- the child's lineage

  function OptionValue(o: Option<string>): L.Value
  {
    if o.None? then L.Nothing else L.Words(o.value)
  }

  function TextsValue(ss: seq<string>): L.Value
  {
    L.List(seq(|ss|, i requires 0 <= i < |ss| => L.Words(ss[i])))
  }

  function ChildValues(c: C.Child): (vs: seq<L.Value>)
    ensures |vs| == 9
  {
    [L.Whole(1), L.Words(c.role), if c.hint.None? then L.Nothing else L.Whole(c.hint.value),
     TextsValue(Sorting.Sort(c.deps, Text.Leq)), OptionValue(c.instrument), OptionValue(c.source),
     OptionValue(c.target), L.Words(c.id), L.Words(c.typ)]
  }

  function Entries(keys: seq<string>, values: seq<L.Value>): (es: seq<L.Entry>)
    requires |keys| == |values|
    ensures |es| == |keys| && forall i | 0 <= i < |es| :: es[i] == L.Entry(keys[i], values[i])
  {
    seq(|keys|, i requires 0 <= i < |keys| => L.Entry(keys[i], values[i]))
  }

  const CHILD_KEYS := ["canonical_payload_version", "child_role", "child_sequence_hint", "dependency_transaction_ids",
                       "instrument_id", "source_instrument_id", "target_instrument_id", "transaction_id",
                       "transaction_type"]

  /** `lineage_payload` of a child: nine entries, the dependencies sorted. */
  function ChildLineage(c: C.Child): L.Value
  {
    L.Dict(Entries(CHILD_KEYS, ChildValues(c)))
  }

  /** Both sides name the members alike. */
  lemma ChildKeysAgree()
    ensures CHILD_KEYS == C.CHILD_KEYS
  {
  }

  lemma KeysDistinct(keys: seq<string>, values: seq<L.Value>)
    requires |keys| == |values| && Distinct(keys)
    ensures L.DistinctKeys(Entries(keys, values))
  {
  }

  lemma TextsSettled(ss: seq<string>)
    ensures L.Settled(TextsValue(ss)) && L.Writable(TextsValue(ss)) && L.JsonOf(TextsValue(ss)) == C.TextsJson(ss)
  {
    L.SettledNormal(TextsValue(ss));
    var a, b := L.JsonOf(TextsValue(ss)).items, C.TextsJson(ss).items;
    assert |a| == |b| && forall i | 0 <= i < |a| :: a[i] == b[i];
  }

  lemma ChildKeysDistinct()
    ensures Distinct(C.CHILD_KEYS)
  {
    C.ChildKeysOrdered();
    hide StrictlyOrdered;
    OrderedDistinct(C.CHILD_KEYS);
  }

  lemma OrderedDistinct(ks: seq<string>)
    requires StrictlyOrdered(ks)
    ensures Distinct(ks)
  {
  }

  lemma ChildKeysNamed()
    ensures forall i | 0 <= i < 9 :: C.CHILD_KEYS[i] != ""
  {
  }

  lemma ChildValuesSettled(c: C.Child)
    ensures forall i | 0 <= i < 9 :: L.Settled(ChildValues(c)[i]) && L.Writable(ChildValues(c)[i])
    ensures forall i | 0 <= i < 9 :: L.JsonOf(ChildValues(c)[i]) == C.Values(C.Normal(c))[i]
  {
    hide TextsValue, C.TextsJson;
    TextsSettled(C.Normal(c).deps);
  }

  lemma ChildSettled(c: C.Child)
    ensures L.Settled(ChildLineage(c)) && L.Writable(ChildLineage(c))
  {
    hide ChildValues, Distinct;
    ChildKeysDistinct();
    ChildKeysAgree();
    KeysDistinct(CHILD_KEYS, ChildValues(c));
    ChildKeysNamed();
    ChildValuesSettled(c);
    L.SettledNormal(ChildLineage(c));
  }

  /** A dict of known keys and values is stored as the object that has them. */
  lemma StoredIs(keys: seq<string>, values: seq<L.Value>, jsons: seq<Json>, m: map<string, Json>)
    requires |keys| == |values| == |jsons| && L.Writable(L.Dict(Entries(keys, values)))
    requires forall i | 0 <= i < |keys| :: L.Writable(values[i]) && L.JsonOf(values[i]) == jsons[i]
    requires forall i | 0 <= i < |keys| :: keys[i] in m && m[keys[i]] == jsons[i]
    requires forall k | k in m :: k in keys
    ensures L.JsonOf(L.Dict(Entries(keys, values))) == Obj(m)
  {
    hide L.JsonOf, L.Writable;
    var v := L.Dict(Entries(keys, values));
    forall k | k in m ensures exists i | 0 <= i < |v.entries| :: v.entries[i].key == k {
      var i :| 0 <= i < |keys| && keys[i] == k;
      assert v.entries[i].key == k;
    }
    L.DictIs(v, m);
  }

  lemma ChildStored(c: C.Child)
    ensures L.Writable(ChildLineage(c)) && L.JsonOf(ChildLineage(c)) == C.ToJson(C.Normal(c))
  {
    hide ChildValues, C.ToJson, C.Normal, C.Values, L.JsonOf, L.Writable, L.Settled, Entries;
    NineValues(C.Normal(c));
    var m := C.ToJson(C.Normal(c)).members;
    ChildSettled(c);
    ChildValuesSettled(c);
    C.MembersOf(C.Normal(c));
    C.ChildKeySet(C.Normal(c));
    ChildKeysAgree();
    StoredIs(CHILD_KEYS, ChildValues(c), C.Values(C.Normal(c)), m);
  }

  lemma NineValues(c: C.Child)
    ensures |C.Values(c)| == 9 && C.ToJson(c).Obj?
  {
  }

  /** The application and the database hash the same text of a child. */
  lemma ChildHashAgrees(c: C.Child)
    ensures L.Normalisable(ChildLineage(c)) && L.Writable(L.Normalised(ChildLineage(c)))
    ensures L.Dumps(L.Normalised(ChildLineage(c))) == C.CanonicalText(c)
  {
    hide ChildLineage, C.CanonicalText, C.ToJson, L.Dumps, L.JsonOf, L.Settled, L.Normalised;
    ChildSettled(c);
    L.SettledNormal(ChildLineage(c));
    ChildStored(c);
    L.DumpsIsPrint(ChildLineage(c));
    C.CanonicalTextPrinted(c);
  }

  // ---------------------------------------------------------------- the manifest's lineage

  const EVIDENCE_KEYS := ["observed_at", "source_content_hash", "source_record_id", "source_revision", "source_system"]

  const MANIFEST_KEYS := ["canonical_payload_version", "completion_declared", "corporate_action_event_id",
                          "corporate_action_type", "expected_children", "legal_book_id",
                          "linked_transaction_group_id", "parent_event_reference", "portfolio_id",
                          "source_reference", "tenant_id", "version"]

  function EvidenceValues(s: Source, observed: L.Value): (vs: seq<L.Value>)
    ensures |vs| == 5
  {
    [observed, L.Words(s.contentHash), L.Words(s.recordId), L.Words(s.revision), L.Words(s.system)]
  }

  function EvidenceLineage(s: Source, observed: L.Value): L.Value
  {
    L.Dict(Entries(EVIDENCE_KEYS, EvidenceValues(s, observed)))
  }

  function ChildrenLineage(cs: seq<C.Child>): L.Value
  {
    L.List(seq(|cs|, i requires 0 <= i < |cs| => ChildLineage(cs[i])))
  }

  /** `sorted(children, key=transaction_id)`. */
  function SortedChildren(a: Manifest): seq<C.Child>
  {
    Sorting.Sort(a.children, M.ById)
  }

  function ManifestValues(a: Manifest, evidence: L.Value): (vs: seq<L.Value>)
    ensures |vs| == 12
  {
    [L.Whole(1), L.Flag(a.completion), L.Words(a.eventId), L.Words(a.eventType), ChildrenLineage(SortedChildren(a)),
     L.Words(a.legalBook), L.Words(a.group), L.Words(a.parent), L.Words(a.portfolio), evidence, L.Words(a.tenant),
     L.Whole(a.version)]
  }

  function Lineage(a: Manifest, observed: L.Value): L.Value
  {
    L.Dict(Entries(MANIFEST_KEYS, ManifestValues(a, EvidenceLineage(a.source, observed))))
  }

  /** `lineage_payload` of the manifest, whose canonical text is hashed. */
  function ManifestLineage(a: Manifest): L.Value
  {
    Lineage(a, L.Moment(a.source.observedAt))
  }

  /** `_manifest_json_payload`, which is stored: the observation time as a text. */
  function StoredLineage(a: Manifest): L.Value
    requires ToUtc(a.source.observedAt).Ok?
  {
    Lineage(a, L.Words(IsoFormat(ToUtc(a.source.observedAt).value)))
  }

  /** The manifest that the stored payload is. */
  function ManifestOf(a: Manifest): M.Manifest
    requires ToUtc(a.source.observedAt).Ok?
  {
    var s := a.source;
    M.Manifest(a.completion, a.eventId, a.eventType, a.group, a.parent, a.portfolio, a.version,
               M.Evidence(IsoFormat(ToUtc(s.observedAt).value), s.contentHash, s.recordId, s.revision, s.system),
               Some(M.Scope(a.tenant, a.legalBook)), M.NormalAll(SortedChildren(a)))
  }

  // ---------------------------------------------------------------- keys

  lemma EvidenceKeysDistinct()
    ensures Distinct(EVIDENCE_KEYS) && forall i | 0 <= i < 5 :: EVIDENCE_KEYS[i] != ""
  {
    var n := [11, 19, 16, 15, 13];
    assert forall i | 0 <= i < 5 :: |EVIDENCE_KEYS[i]| == n[i];
  }

  /** All but two differ in length. */
  lemma ManifestKeysDistinct()
    ensures Distinct(MANIFEST_KEYS)
  {
    var n := [25, 19, 25, 21, 17, 13, 27, 22, 12, 16, 9, 7];
    assert forall i | 0 <= i < 12 :: |MANIFEST_KEYS[i]| == n[i];
    assert MANIFEST_KEYS[0][1] != MANIFEST_KEYS[2][1];
  }

  lemma ManifestKeysNamed()
    ensures forall i | 0 <= i < 12 :: MANIFEST_KEYS[i] != ""
  {
  }

  // ---------------------------------------------------------------- normalising it

  /** Where only one value has anything to normalise. */
  lemma NormalAt(keys: seq<string>, values: seq<L.Value>, j: nat)
    requires |keys| == |values| && j < |keys| && Distinct(keys) && forall i | 0 <= i < |keys| :: keys[i] != ""
    requires forall i | 0 <= i < |keys| && i != j :: L.Settled(values[i])
    requires L.Normalisable(values[j]) && L.Writable(L.Normalised(values[j]))
    ensures var v, w := L.Dict(Entries(keys, values)), L.Dict(Entries(keys, values[j := L.Normalised(values[j])]));
            L.Normalisable(v) && L.Normalised(v) == w && L.Writable(w)
  {
    var v, ws := L.Dict(Entries(keys, values)), values[j := L.Normalised(values[j])];
    var w := L.Dict(Entries(keys, ws));
    forall i | 0 <= i < |keys|
      ensures L.Normalisable(values[i]) && L.Normalised(values[i]) == ws[i] && L.Writable(ws[i])
    {
      if i != j { L.SettledNormal(values[i]); }
    }
    KeysDistinct(keys, ws);
    assert |L.Normalised(v).entries| == |w.entries|;
    assert forall i | 0 <= i < |keys| :: L.Normalised(v).entries[i] == w.entries[i];
  }

  /** The tag of a point in time. */
  function Tagged(text: string): L.Value
  {
    L.Dict([L.Entry(M.DATETIME, L.Words(text))])
  }

  lemma MomentTagged(at: Aware)
    requires ToUtc(at).Ok?
    ensures L.Normalisable(L.Moment(at)) && L.Normalised(L.Moment(at)) == Tagged(IsoFormat(ToUtc(at).value))
  {
  }

  lemma TaggedStored(text: string)
    ensures L.Writable(Tagged(text)) && L.JsonOf(Tagged(text)) == Obj(map[M.DATETIME := Str(text)])
  {
    var v := Tagged(text);
    assert v.entries[0].key == M.DATETIME && v.entries[0].value == L.Words(text);
    L.DictIs(v, map[M.DATETIME := Str(text)]);
  }

  lemma EvidenceNormal(s: Source)
    requires ToUtc(s.observedAt).Ok?
    ensures var v, w := EvidenceLineage(s, L.Moment(s.observedAt)),
                        EvidenceLineage(s, Tagged(IsoFormat(ToUtc(s.observedAt).value)));
            L.Normalisable(v) && L.Normalised(v) == w && L.Writable(w)
  {
    hide IsoFormat, ToUtc, Distinct, Tagged, L.Normalisable, L.Normalised;
    var text := IsoFormat(ToUtc(s.observedAt).value);
    var vs := EvidenceValues(s, L.Moment(s.observedAt));
    MomentTagged(s.observedAt);
    TaggedStored(text);
    EvidenceKeysDistinct();
    NormalAt(EVIDENCE_KEYS, vs, 0);
    assert vs[0 := Tagged(text)] == EvidenceValues(s, Tagged(text));
  }

  function EvidenceMembers(s: Source, observed: Json): map<string, Json>
  {
    map[M.OBSERVED_AT := observed, M.CONTENT_HASH := Str(s.contentHash), M.RECORD_ID := Str(s.recordId),
        M.REVISION := Str(s.revision), M.SYSTEM := Str(s.system)]
  }

  lemma EvidenceStored(s: Source, observed: L.Value)
    requires L.Writable(observed)
    ensures var v := EvidenceLineage(s, observed);
            L.Writable(v) && L.JsonOf(v) == Obj(EvidenceMembers(s, L.JsonOf(observed)))
  {
    var vs := EvidenceValues(s, observed);
    var js := [L.JsonOf(observed), Str(s.contentHash), Str(s.recordId), Str(s.revision), Str(s.system)];
    EvidenceKeysDistinct();
    KeysDistinct(EVIDENCE_KEYS, vs);
    StoredIs(EVIDENCE_KEYS, vs, js, EvidenceMembers(s, L.JsonOf(observed)));
  }

  lemma ChildrenStored(cs: seq<C.Child>)
    ensures var v := ChildrenLineage(cs);
            L.Settled(v) && L.Writable(v) && L.JsonOf(v) == M.ChildrenJson(M.NormalAll(cs))
  {
    hide ChildLineage, C.ToJson, C.Normal;
    var v := ChildrenLineage(cs);
    forall i | 0 <= i < |cs|
      ensures L.Settled(v.elements[i]) && L.Writable(v.elements[i])
      ensures L.JsonOf(v.elements[i]) == C.ToJson(C.Normal(cs[i]))
    {
      ChildSettled(cs[i]);
      ChildStored(cs[i]);
    }
    var x, y := L.JsonOf(v).items, M.ChildrenJson(M.NormalAll(cs)).items;
    assert |x| == |y| && forall i | 0 <= i < |x| :: x[i] == y[i];
  }

  lemma ManifestNormal(a: Manifest)
    requires ToUtc(a.source.observedAt).Ok?
    ensures var w := Lineage(a, Tagged(IsoFormat(ToUtc(a.source.observedAt).value)));
            L.Normalisable(ManifestLineage(a)) && L.Normalised(ManifestLineage(a)) == w && L.Writable(w)
  {
    hide IsoFormat, ToUtc, Distinct, Tagged, L.Normalisable, L.Normalised, L.Writable, EvidenceLineage, ChildrenLineage;
    var text := IsoFormat(ToUtc(a.source.observedAt).value);
    var evidence := EvidenceLineage(a.source, L.Moment(a.source.observedAt));
    var vs := ManifestValues(a, evidence);
    EvidenceNormal(a.source);
    ChildrenStored(SortedChildren(a));
    ManifestKeysDistinct();
    ManifestKeysNamed();
    NormalAt(MANIFEST_KEYS, vs, 9);
    var tagged := EvidenceLineage(a.source, Tagged(text));
    assert vs[9 := tagged] == ManifestValues(a, tagged);
  }

  // ---------------------------------------------------------------- storing it

  function ManifestJsons(m: M.Manifest, evidence: Json): (js: seq<Json>)
    requires m.scope.Some?
    ensures |js| == 12
  {
    [Num(1, 0), Bool(m.completion), Str(m.eventId), Str(m.eventType), M.ChildrenJson(m.children),
     Str(m.scope.value.legalBook), Str(m.group), Str(m.parent), Str(m.portfolio), evidence, Str(m.scope.value.tenant),
     Num(m.version, 0)]
  }

  lemma Index12(m: map<string, Json>, keys: seq<string>, js: seq<Json>)
    requires |keys| == |js| == 12
    requires keys[0] in m && keys[1] in m && keys[2] in m && keys[3] in m && keys[4] in m && keys[5] in m
    requires keys[6] in m && keys[7] in m && keys[8] in m && keys[9] in m && keys[10] in m && keys[11] in m
    requires m[keys[0]] == js[0] && m[keys[1]] == js[1] && m[keys[2]] == js[2] && m[keys[3]] == js[3]
    requires m[keys[4]] == js[4] && m[keys[5]] == js[5] && m[keys[6]] == js[6] && m[keys[7]] == js[7]
    requires m[keys[8]] == js[8] && m[keys[9]] == js[9] && m[keys[10]] == js[10] && m[keys[11]] == js[11]
    ensures forall i | 0 <= i < 12 :: keys[i] in m && m[keys[i]] == js[i]
  {
  }

  lemma ScopedMembers(m: M.Manifest, evidence: Json)
    requires m.scope.Some?
    ensures var p := R.Members(m)[M.EVIDENCE := evidence];
            && (forall i | 0 <= i < 12 :: MANIFEST_KEYS[i] in p && p[MANIFEST_KEYS[i]] == ManifestJsons(m, evidence)[i])
            && forall k | k in p :: k in MANIFEST_KEYS
  {
    hide R.Members, M.ChildrenJson, R.EvidenceJson;
    R.MembersHold(m);
    var p := R.Members(m)[M.EVIDENCE := evidence];
    assert M.ScopedKeys(p);
    KeysOtherThanEvidence();
    Index12(p, MANIFEST_KEYS, ManifestJsons(m, evidence));
    ScopedKeysListed(p);
  }

  lemma KeysOtherThanEvidence()
    ensures M.EVIDENCE != C.VERSION && M.EVIDENCE != M.COMPLETION && M.EVIDENCE != M.EVENT_ID
    ensures M.EVIDENCE != M.EVENT_TYPE && M.EVIDENCE != M.CHILDREN && M.EVIDENCE != M.LEGAL_BOOK
    ensures M.EVIDENCE != M.GROUP && M.EVIDENCE != M.PARENT && M.EVIDENCE != M.PORTFOLIO
    ensures M.EVIDENCE != M.TENANT && M.EVIDENCE != M.MANIFEST_VERSION
  {
    assert |M.EVIDENCE| == 16 && |C.VERSION| == 25 && |M.COMPLETION| == 19 && |M.EVENT_ID| == 25;
    assert |M.EVENT_TYPE| == 21 && |M.CHILDREN| == 17 && |M.LEGAL_BOOK| == 13 && |M.GROUP| == 27;
    assert |M.PARENT| == 22 && |M.PORTFOLIO| == 12 && |M.TENANT| == 9 && |M.MANIFEST_VERSION| == 7;
  }

  lemma ScopedKeysListed(p: map<string, Json>)
    requires M.ScopedKeys(p)
    ensures forall k | k in p :: k in MANIFEST_KEYS
  {
    forall k | k in p ensures k in MANIFEST_KEYS { assert k in p.Keys; }
  }

  lemma ManifestValuesStored(a: Manifest, evidence: L.Value)
    requires ToUtc(a.source.observedAt).Ok? && L.Writable(evidence)
    ensures forall i | 0 <= i < 12 ::
              && L.Writable(ManifestValues(a, evidence)[i])
              && L.JsonOf(ManifestValues(a, evidence)[i]) == ManifestJsons(ManifestOf(a), L.JsonOf(evidence))[i]
  {
    hide ChildrenLineage, IsoFormat, ToUtc, M.ChildrenJson, M.NormalAll, SortedChildren;
    ChildrenStored(SortedChildren(a));
  }

  lemma LineageStored(a: Manifest, observed: L.Value)
    requires ToUtc(a.source.observedAt).Ok? && L.Writable(observed)
    ensures var v, evidence := Lineage(a, observed), Obj(EvidenceMembers(a.source, L.JsonOf(observed)));
            L.Writable(v) && L.JsonOf(v) == Obj(R.Members(ManifestOf(a))[M.EVIDENCE := evidence])
  {
    hide EvidenceLineage, ManifestValues, ManifestJsons, R.Members, EvidenceMembers, Distinct, Entries, L.JsonOf;
    hide ToUtc, IsoFormat;
    var ev := EvidenceLineage(a.source, observed);
    EvidenceStored(a.source, observed);
    var vs, m := ManifestValues(a, ev), ManifestOf(a);
    ManifestValuesStored(a, ev);
    ManifestKeysDistinct();
    DictWritable(MANIFEST_KEYS, vs);
    ScopedMembers(m, L.JsonOf(ev));
    StoredIs(MANIFEST_KEYS, vs, ManifestJsons(m, L.JsonOf(ev)), R.Members(m)[M.EVIDENCE := L.JsonOf(ev)]);
  }

  lemma DictWritable(keys: seq<string>, values: seq<L.Value>)
    requires |keys| == |values| && Distinct(keys) && forall i | 0 <= i < |keys| :: L.Writable(values[i])
    ensures L.Writable(L.Dict(Entries(keys, values)))
  {
    KeysDistinct(keys, values);
  }

  /** The stored payload. */
  function PayloadOf(a: Manifest): Json
    requires ToUtc(a.source.observedAt).Ok?
  {
    var text := IsoFormat(ToUtc(a.source.observedAt).value);
    LineageStored(a, L.Words(text));
    L.JsonOf(StoredLineage(a))
  }

  lemma EvidenceWritten(s: Source, text: string)
    ensures EvidenceMembers(s, Str(text))
            == R.EvidenceJson(M.Evidence(text, s.contentHash, s.recordId, s.revision, s.system))
    ensures EvidenceMembers(s, Obj(map[M.DATETIME := Str(text)])) == M.TagObserved(EvidenceMembers(s, Str(text)))
  {
  }

  /** It is what the manifest is written as. */
  lemma PayloadWritten(a: Manifest)
    requires ToUtc(a.source.observedAt).Ok?
    ensures PayloadOf(a) == Obj(R.Members(ManifestOf(a)))
  {
    hide L.JsonOf, R.Members, R.EvidenceJson, EvidenceMembers, Lineage, IsoFormat, ToUtc;
    var text, m := IsoFormat(ToUtc(a.source.observedAt).value), ManifestOf(a);
    LineageStored(a, L.Words(text));
    WordsStored(text);
    EvidenceWritten(a.source, text);
    R.MembersHold(m);
    var p := R.Members(m);
    assert p[M.EVIDENCE := p[M.EVIDENCE]] == p;
  }

  lemma WordsStored(text: string)
    ensures L.Writable(L.Words(text)) && L.JsonOf(L.Words(text)) == Str(text)
  {
  }

  // ---------------------------------------------------------------- the hashed text

  lemma {:induction false} InsertNormal(c: C.Child, cs: seq<C.Child>)
    ensures M.NormalAll(Sorting.Insert(c, cs, M.ById)) == Sorting.Insert(C.Normal(c), M.NormalAll(cs), M.ById)
    decreases |cs|
  {
    hide Text.Leq, Sorting.Sort;
    var ns := M.NormalAll(cs);
    if cs != [] {
      assert M.ById(c, cs[0]) <==> M.ById(C.Normal(c), ns[0]);
      assert ns[1..] == M.NormalAll(cs[1..]);
      if !M.ById(c, cs[0]) { InsertNormal(c, cs[1..]); }
    }
  }

  /** Sorting the children and then their dependencies is sorting the dependencies and then the children. */
  lemma {:induction false} SortNormal(cs: seq<C.Child>)
    ensures M.NormalAll(Sorting.Sort(cs, M.ById)) == M.NormalChildren(cs)
    decreases |cs|
  {
    hide C.Normal, Sorting.Insert;
    if cs != [] {
      SortNormal(cs[1..]);
      InsertNormal(cs[0], Sorting.Sort(cs[1..], M.ById));
      assert M.NormalAll(cs)[1..] == M.NormalAll(cs[1..]);
    }
  }

  lemma NormalOnce(c: C.Child)
    ensures C.Normal(C.Normal(c)) == C.Normal(c)
  {
    hide Text.Leq, Sorting.Sort;
    C.TextOrder();
    Sorting.SortOrders(c.deps, Text.Leq);
    Sorting.SortOrdered(C.Normal(c).deps, Text.Leq);
  }

  /** The stored children are in the database's own order. */
  lemma StoredChildrenNormal(a: Manifest)
    ensures var cs := M.NormalAll(SortedChildren(a)); M.NormalChildren(cs) == cs
  {
    hide Sorting.Sort, C.Normal, Sorting.Ordered;
    var cs := M.NormalAll(SortedChildren(a));
    SortNormal(a.children);
    M.ByIdOrder();
    Sorting.SortOrders(M.NormalAll(a.children), M.ById);
    forall i | 0 <= i < |cs| ensures C.Normal(cs[i]) == cs[i] { NormalOnce(SortedChildren(a)[i]); }
    assert M.NormalAll(cs) == cs;
    Sorting.SortOrdered(cs, M.ById);
  }

  lemma TaggedPayload(m: M.Manifest, s: Source, text: string)
    requires m.evidence == M.Evidence(text, s.contentHash, s.recordId, s.revision, s.system)
    requires m.scope.Some? && M.NormalChildren(m.children) == m.children
    ensures M.HasEvidence(R.Members(m))
    ensures M.NormalPayload(R.Members(m), m.children)
            == Obj(R.Members(m)[M.EVIDENCE := Obj(EvidenceMembers(s, Obj(map[M.DATETIME := Str(text)])))])
  {
    hide R.Members, R.EvidenceJson, EvidenceMembers, M.ChildrenJson, M.NormalChildren, M.TagObserved;
    R.MembersHold(m);
    EvidenceWritten(s, text);
    EvidenceHasTime(s, Str(text));
    var p := R.Members(m);
    assert p[M.CHILDREN := p[M.CHILDREN]] == p;
  }

  lemma EvidenceHasTime(s: Source, observed: Json)
    ensures M.OBSERVED_AT in EvidenceMembers(s, observed)
  {
  }

  /** The text whose hash is the manifest's content hash. */
  function ContentText(a: Manifest): string
    requires ToUtc(a.source.observedAt).Ok?
  {
    ManifestNormal(a);
    L.Dumps(L.Normalised(ManifestLineage(a)))
  }

  /** The application hashes, of a manifest it stores, the very text the database hashes of the payload. */
  lemma HashTextAgrees(a: Manifest)
    requires ToUtc(a.source.observedAt).Ok? && M.AcceptForward(PayloadOf(a), true).Ok?
    ensures M.TextForward(PayloadOf(a), true) == Ok(ContentText(a))
  {
    hide M.AcceptForward, R.Members, R.Valid, PayloadOf, Lineage, ManifestLineage, Tagged, IsoFormat, ToUtc;
    hide L.Dumps, L.JsonOf, L.Writable, L.Normalised, L.Normalisable, EvidenceMembers, M.NormalPayload, M.HasEvidence;
    hide M.NormalAll, M.NormalChildren, SortedChildren;
    var text, m := IsoFormat(ToUtc(a.source.observedAt).value), ManifestOf(a);
    PayloadWritten(a);
    R.ReadAsWritten(m);
    StoredChildrenNormal(a);
    TaggedPayload(m, a.source, text);
    ManifestNormal(a);
    TaggedStored(text);
    LineageStored(a, Tagged(text));
    L.DumpsIsPrint(Lineage(a, Tagged(text)));
  }
}
