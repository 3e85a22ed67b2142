/** The child payload of a corporate action: its closed shape and its canonical text. */
module ChildPayload {
  import opened Wrappers
  import opened JsonString
  import opened Json
  import Sorting
  import Text

  datatype Child = Child(
    role: string,
    hint: Option<nat>,
    deps: seq<string>,
    instrument: Option<string>,
    source: Option<string>,
    target: Option<string>,
    id: string,
    typ: string)

  datatype PayloadError = NotAnObject | ShapeNotCanonical | ValuesNotCanonical | MembersNotCanonical

  const VERSION := "canonical_payload_version"
  const ROLE := "child_role"
  const HINT := "child_sequence_hint"
  const DEPS := "dependency_transaction_ids"
  const INSTRUMENT := "instrument_id"
  const SOURCE := "source_instrument_id"
  const TARGET := "target_instrument_id"
  const ID := "transaction_id"
  const TYPE := "transaction_type"

  const CHILD_KEYS := [VERSION, ROLE, HINT, DEPS, INSTRUMENT, SOURCE, TARGET, ID, TYPE]

  // ---------------------------------------------------------------- acceptance

  predicate RequiredText(v: Json)
  {
    v.Str? && Text.Normalized(v.s)
  }

  predicate OptionalText(v: Json)
  {
    v.Null? || RequiredText(v)
  }

  /** Null, or a number whose text matches `^(0|[1-9][0-9]*)$`. */
  predicate SequenceHint(v: Json)
  {
    v.Null? || (v.Num? && v.scale == 0 && v.unscaled >= 0)
  }

  predicate HasChildKeys(m: map<string, Json>)
  {
    m.Keys == {VERSION, ROLE, HINT, DEPS, INSTRUMENT, SOURCE, TARGET, ID, TYPE}
  }

  predicate ValuesCanonical(m: map<string, Json>)
    requires HasChildKeys(m)
  {
    && m[VERSION] == Num(1, 0)
    && RequiredText(m[ROLE]) && RequiredText(m[ID]) && RequiredText(m[TYPE])
    && m[DEPS].Arr? && SequenceHint(m[HINT])
  }

  predicate MembersCanonical(m: map<string, Json>)
    requires HasChildKeys(m) && m[DEPS].Arr?
  {
    && OptionalText(m[INSTRUMENT]) && OptionalText(m[SOURCE]) && OptionalText(m[TARGET])
    && forall i | 0 <= i < |m[DEPS].items| :: RequiredText(m[DEPS].items[i])
  }

  function TextOption(v: Json): Option<string>
    requires OptionalText(v)
  {
    if v.Null? then None else Some(v.s)
  }

  function Texts(items: seq<Json>): (r: seq<string>)
    requires forall i | 0 <= i < |items| :: items[i].Str?
    ensures |r| == |items| && forall i | 0 <= i < |r| :: Str(r[i]) == items[i]
  {
    seq(|items|, i requires 0 <= i < |items| => items[i].s)
  }

  /** The checks of the payload function, in its order; an accepted payload is a child. */
  function Accept(p: Json): Result<Child, PayloadError>
  {
    if !p.Obj? then Err(NotAnObject)
    else if !HasChildKeys(p.members) then Err(ShapeNotCanonical)
    else if !ValuesCanonical(p.members) then Err(ValuesNotCanonical)
    else if !MembersCanonical(p.members) then Err(MembersNotCanonical)
    else
      var m := p.members;
      Ok(Child(m[ROLE].s, if m[HINT].Null? then None else Some(m[HINT].unscaled), Texts(m[DEPS].items),
               TextOption(m[INSTRUMENT]), TextOption(m[SOURCE]), TextOption(m[TARGET]), m[ID].s, m[TYPE].s))
  }

  // ---------------------------------------------------------------- the payload of a child

  predicate NormalizedOption(o: Option<string>)
  {
    o.None? || Text.Normalized(o.value)
  }

  predicate Valid(c: Child)
  {
    && Text.Normalized(c.role) && Text.Normalized(c.id) && Text.Normalized(c.typ)
    && NormalizedOption(c.instrument) && NormalizedOption(c.source) && NormalizedOption(c.target)
    && forall i | 0 <= i < |c.deps| :: Text.Normalized(c.deps[i])
  }

  function OptionJson(o: Option<string>): Json
  {
    if o.None? then Null else Str(o.value)
  }

  function HintJson(o: Option<nat>): Json
  {
    if o.None? then Null else Num(o.value, 0)
  }

  function TextsJson(ss: seq<string>): Json
  {
    Arr(seq(|ss|, i requires 0 <= i < |ss| => Str(ss[i])))
  }

  /** `jsonb_build_object` of the nine members. */
  function ToJson(c: Child): Json
  {
    Obj(map[VERSION := Num(1, 0), ROLE := Str(c.role), HINT := HintJson(c.hint), DEPS := TextsJson(c.deps),
            INSTRUMENT := OptionJson(c.instrument), SOURCE := OptionJson(c.source),
            TARGET := OptionJson(c.target), ID := Str(c.id), TYPE := Str(c.typ)])
  }

  lemma TextsRoundTrip(ss: seq<string>)
    ensures forall i | 0 <= i < |TextsJson(ss).items| :: TextsJson(ss).items[i].Str?
    ensures Texts(TextsJson(ss).items) == ss
  {
  }

  lemma TextsJsonRoundTrip(items: seq<Json>)
    requires forall i | 0 <= i < |items| :: items[i].Str?
    ensures TextsJson(Texts(items)) == Arr(items)
  {
  }

  /** The nine values of a child's payload, in key order. */
  function Values(c: Child): seq<Json>
  {
    [Num(1, 0), Str(c.role), HintJson(c.hint), TextsJson(c.deps), OptionJson(c.instrument),
     OptionJson(c.source), OptionJson(c.target), Str(c.id), Str(c.typ)]
  }

  lemma FirstMembers(c: Child)
    ensures var m := ToJson(c).members;
            && VERSION in m && ROLE in m && HINT in m && DEPS in m && INSTRUMENT in m
            && m[VERSION] == Num(1, 0) && m[ROLE] == Str(c.role) && m[HINT] == HintJson(c.hint)
            && m[DEPS] == TextsJson(c.deps) && m[INSTRUMENT] == OptionJson(c.instrument)
  {
  }

  lemma LastMembers(c: Child)
    ensures var m := ToJson(c).members;
            && SOURCE in m && TARGET in m && ID in m && TYPE in m
            && m[SOURCE] == OptionJson(c.source) && m[TARGET] == OptionJson(c.target)
            && m[ID] == Str(c.id) && m[TYPE] == Str(c.typ)
  {
  }

  lemma Index9(m: map<string, Json>, keys: seq<string>, values: seq<Json>)
    requires |keys| == |values| == 9
    requires keys[0] in m && keys[1] in m && keys[2] in m && keys[3] in m && keys[4] in m
    requires keys[5] in m && keys[6] in m && keys[7] in m && keys[8] in m
    requires m[keys[0]] == values[0] && m[keys[1]] == values[1] && m[keys[2]] == values[2]
    requires m[keys[3]] == values[3] && m[keys[4]] == values[4] && m[keys[5]] == values[5]
    requires m[keys[6]] == values[6] && m[keys[7]] == values[7] && m[keys[8]] == values[8]
    ensures forall i | 0 <= i < 9 :: keys[i] in m && m[keys[i]] == values[i]
  {
  }

  lemma MembersOf(c: Child)
    ensures HasChildKeys(ToJson(c).members)
    ensures forall i | 0 <= i < 9 ::
              CHILD_KEYS[i] in ToJson(c).members && ToJson(c).members[CHILD_KEYS[i]] == Values(c)[i]
  {
    FirstMembers(c);
    LastMembers(c);
    Index9(ToJson(c).members, CHILD_KEYS, Values(c));
  }

  lemma TextsJsonInjective(ss: seq<string>, ts: seq<string>)
    requires TextsJson(ss) == TextsJson(ts)
    ensures ss == ts
  {
    TextsRoundTrip(ss);
    TextsRoundTrip(ts);
  }

  lemma ToJsonInjective(c: Child, d: Child)
    requires ToJson(c) == ToJson(d)
    ensures c == d
  {
    FirstMembers(c);
    FirstMembers(d);
    LastMembers(c);
    LastMembers(d);
    TextsJsonInjective(c.deps, d.deps);
  }

  lemma ValuesAccepted(c: Child)
    requires Valid(c)
    ensures HasChildKeys(ToJson(c).members) && ValuesCanonical(ToJson(c).members)
  {
  }

  lemma MembersAccepted(c: Child)
    requires Valid(c)
    ensures HasChildKeys(ToJson(c).members) && ToJson(c).members[DEPS].Arr? && MembersCanonical(ToJson(c).members)
  {
  }

  /** A valid child's own payload is accepted as that child. */
  lemma AcceptComplete(c: Child)
    requires Valid(c)
    ensures Accept(ToJson(c)) == Ok(c)
  {
    ValuesAccepted(c);
    MembersAccepted(c);
    TextsRoundTrip(c.deps);
  }

  /** Only the payload of a valid child is accepted. */
  lemma AcceptSound(p: Json)
    requires Accept(p).Ok?
    ensures Valid(Accept(p).value) && p == ToJson(Accept(p).value)
  {
    var m := p.members;
    TextsJsonRoundTrip(m[DEPS].items);
    var c := Accept(p).value;
    assert forall i | 0 <= i < |c.deps| :: RequiredText(m[DEPS].items[i]) && Str(c.deps[i]) == m[DEPS].items[i];
    assert ToJson(c).members == m;
  }

  // ---------------------------------------------------------------- canonical text

  function OptionText(o: Option<string>): string
  {
    if o.None? then "null" else Quote(o.value)
  }

  function HintText(o: Option<nat>): string
  {
    if o.None? then "null" else PrintNumber(o.value, 0)
  }

  function Quotes(ss: seq<string>): (r: seq<string>)
    ensures |r| == |ss| && forall i | 0 <= i < |r| :: r[i] == Quote(ss[i])
  {
    seq(|ss|, i requires 0 <= i < |ss| => Quote(ss[i]))
  }

  /** The dependencies in C-collation order, as a JSON array. */
  function DependencyText(deps: seq<string>): string
  {
    "[" + Join(Quotes(Sorting.Sort(deps, Text.Leq))) + "]"
  }

  /** The nine member values as the payload function writes them. */
  function ValueTexts(c: Child): seq<string>
  {
    ["1", Quote(c.role), HintText(c.hint), DependencyText(c.deps), OptionText(c.instrument),
     OptionText(c.source), OptionText(c.target), Quote(c.id), Quote(c.typ)]
  }

  /** The nine members, concatenated by hand: `"canonical_payload_version":1`, `"child_role":` ... */
  function MemberTexts(c: Child): seq<string>
  {
    seq(9, i requires 0 <= i < 9 => Member(CHILD_KEYS[i], ValueTexts(c)[i]))
  }

  function CanonicalText(c: Child): string
  {
    "{" + Join(MemberTexts(c)) + "}"
  }

  function PayloadText(p: Json): Result<string, PayloadError>
  {
    match Accept(p)
    case Ok(c) => Ok(CanonicalText(c))
    case Err(e) => Err(e)
  }

  /** The child with its dependencies sorted. */
  function Normal(c: Child): Child
  {
    c.(deps := Sorting.Sort(c.deps, Text.Leq))
  }

  // ---------------------------------------------------------------- text = generic printer

  lemma TextOrder()
    ensures Sorting.TotalPreorder(Text.Leq)
  {
    forall a, b ensures Text.Leq(a, b) || Text.Leq(b, a) { Text.LeqTotal(a, b); }
    forall a, b, c | Text.Leq(a, b) && Text.Leq(b, c) ensures Text.Leq(a, c) { Text.LeqTransitive(a, b, c); }
  }

  lemma TextTieFree(xs: seq<string>)
    ensures Sorting.TieFree(xs, Text.Leq)
  {
    forall a, b | a in xs && b in xs && Text.Leq(a, b) && Text.Leq(b, a) ensures a == b {
      Text.LeqAntisymmetric(a, b);
    }
  }

  /** Sorting depends only on what is sorted. */
  lemma SortAgrees(xs: seq<string>, ys: seq<string>)
    requires multiset(xs) == multiset(ys)
    ensures Sorting.Sort(xs, Text.Leq) == Sorting.Sort(ys, Text.Leq)
  {
    TextOrder();
    Sorting.SortPermutes(xs, Text.Leq);
    Sorting.SortPermutes(ys, Text.Leq);
    Sorting.SortOrders(xs, Text.Leq);
    Sorting.SortOrders(ys, Text.Leq);
    TextTieFree(Sorting.Sort(xs, Text.Leq));
    Sorting.OrderedUnique(Sorting.Sort(xs, Text.Leq), Sorting.Sort(ys, Text.Leq), Text.Leq);
  }

  lemma Ordered2(a: string, b: string, i: nat)
    requires i < |a| && i < |b| && a[..i] == b[..i] && a[i] < b[i]
    ensures StrictlyBefore(a, b)
  {
    Text.LeqAt(a, b, i);
  }

  ghost predicate StrictlyBefore(a: string, b: string)
  {
    a != b && Text.Leq(a, b)
  }

  lemma {:induction false} AdjacentOrdered(ks: seq<string>)
    requires forall i | 0 <= i < |ks| - 1 :: StrictlyBefore(ks[i], ks[i + 1])
    ensures StrictlyOrdered(ks)
    decreases |ks|
  {
    if |ks| > 1 {
      var rest := ks[1..];
      forall i | 0 <= i < |rest| - 1 ensures StrictlyBefore(rest[i], rest[i + 1]) {
        assert StrictlyBefore(ks[i + 1], ks[i + 1 + 1]);
      }
      AdjacentOrdered(rest);
      assert StrictlyBefore(ks[0], ks[0 + 1]);
      forall j | 1 < j < |ks| ensures ks[0] != ks[j] && Text.Leq(ks[0], ks[j]) {
        assert rest[0] == ks[1] && rest[j - 1] == ks[j];
        Text.LeqTransitive(ks[0], ks[1], ks[j]);
        if ks[0] == ks[j] { Text.LeqAntisymmetric(ks[0], ks[1]); }
      }
      forall i, j | 0 <= i < j < |ks| ensures ks[i] != ks[j] && Text.Leq(ks[i], ks[j]) {
        if i > 0 { assert rest[i - 1] == ks[i] && rest[j - 1] == ks[j]; }
      }
    }
  }

  lemma FirstKeysOrdered()
    ensures StrictlyBefore(VERSION, ROLE) && StrictlyBefore(ROLE, HINT) && StrictlyBefore(HINT, DEPS)
  {
    Ordered2(VERSION, ROLE, 1);
    Ordered2(ROLE, HINT, 6);
    Ordered2(HINT, DEPS, 0);
  }

  lemma MiddleKeysOrdered()
    ensures StrictlyBefore(DEPS, INSTRUMENT) && StrictlyBefore(INSTRUMENT, SOURCE)
  {
  }

  lemma LastKeysOrdered()
    ensures StrictlyBefore(SOURCE, TARGET) && StrictlyBefore(TARGET, ID) && StrictlyBefore(ID, TYPE)
  {
    Ordered2(SOURCE, TARGET, 0);
    Ordered2(TARGET, ID, 1);
    Ordered2(ID, TYPE, 12);
  }

  lemma Ordered9(a: string, b: string, c: string, d: string, e: string, f: string, g: string, h: string, i: string)
    requires StrictlyBefore(a, b) && StrictlyBefore(b, c) && StrictlyBefore(c, d) && StrictlyBefore(d, e)
    requires StrictlyBefore(e, f) && StrictlyBefore(f, g) && StrictlyBefore(g, h) && StrictlyBefore(h, i)
    ensures StrictlyOrdered([a, b, c, d, e, f, g, h, i])
  {
    AdjacentOrdered([a, b, c, d, e, f, g, h, i]);
  }

  /** The literal key list is in C-collation order. */
  lemma ChildKeysOrdered()
    ensures StrictlyOrdered(CHILD_KEYS)
  {
    FirstKeysOrdered();
    MiddleKeysOrdered();
    LastKeysOrdered();
    Ordered9(VERSION, ROLE, HINT, DEPS, INSTRUMENT, SOURCE, TARGET, ID, TYPE);
  }

  lemma TextsPrinted(ss: seq<string>)
    ensures Print(TextsJson(ss)) == "[" + Join(Quotes(ss)) + "]"
  {
    PrintItemsJoin(TextsJson(ss), 0, Quotes(ss));
  }

  lemma OnePrinted()
    ensures Print(Num(1, 0)) == "1"
  {
  }

  lemma ValuesPrinted(c: Child)
    ensures forall i | 0 <= i < 9 :: ValueTexts(c)[i] == Print(Values(Normal(c))[i])
  {
    OnePrinted();
    TextsPrinted(Normal(c).deps);
  }

  lemma FirstKeysPlain()
    ensures Plain(VERSION) && Plain(ROLE) && Plain(HINT) && Plain(DEPS)
  {
  }

  lemma LastKeysPlain()
    ensures Plain(INSTRUMENT) && Plain(SOURCE) && Plain(TARGET) && Plain(ID) && Plain(TYPE)
  {
  }

  lemma ChildKeysPlain()
    ensures Plain(VERSION) && Plain(ROLE) && Plain(HINT) && Plain(DEPS) && Plain(INSTRUMENT)
    ensures Plain(SOURCE) && Plain(TARGET) && Plain(ID) && Plain(TYPE)
  {
    hide Plain;
    FirstKeysPlain();
    LastKeysPlain();
  }

  lemma PlainAll(keys: seq<string>)
    requires |keys| == 9
    requires Plain(keys[0]) && Plain(keys[1]) && Plain(keys[2]) && Plain(keys[3]) && Plain(keys[4])
    requires Plain(keys[5]) && Plain(keys[6]) && Plain(keys[7]) && Plain(keys[8])
    ensures forall i | 0 <= i < 9 :: Plain(keys[i])
  {
  }

  lemma ChildKeysAllPlain()
    ensures forall i | 0 <= i < 9 :: Plain(CHILD_KEYS[i])
  {
    ChildKeysPlain();
    PlainAll(CHILD_KEYS);
  }

  lemma ChildKeySet(c: Child)
    ensures ToJson(c).members.Keys == set k | k in CHILD_KEYS
  {
  }

  /** The text written out by hand is the generic printer's text of the normalised child. */
  lemma CanonicalTextPrinted(c: Child)
    ensures CanonicalText(c) == Print(ToJson(Normal(c)))
  {
    ChildKeysOrdered();
    ChildKeysAllPlain();
    ChildKeySet(Normal(c));
    MembersOf(Normal(c));
    ValuesPrinted(c);
    PrintObject(ToJson(Normal(c)), CHILD_KEYS, Values(Normal(c)), MemberTexts(c));
  }

  // ---------------------------------------------------------------- when two texts agree

  /** Equal in everything but the order of the dependencies. */
  ghost predicate SameUpToOrder(c: Child, d: Child)
  {
    c.(deps := []) == d.(deps := []) && multiset(c.deps) == multiset(d.deps)
  }

  lemma NormalAgreesExactly(c: Child, d: Child)
    ensures Normal(c) == Normal(d) <==> SameUpToOrder(c, d)
  {
    Sorting.SortPermutes(c.deps, Text.Leq);
    Sorting.SortPermutes(d.deps, Text.Leq);
    assert Normal(c).(deps := []) == c.(deps := []) && Normal(d).(deps := []) == d.(deps := []);
    if SameUpToOrder(c, d) { SortAgrees(c.deps, d.deps); }
  }

  /** Two children have the same text exactly when they differ at most in dependency order. */
  lemma TextAgreesExactly(c: Child, d: Child)
    ensures CanonicalText(c) == CanonicalText(d) <==> SameUpToOrder(c, d)
  {
    CanonicalTextPrinted(c);
    CanonicalTextPrinted(d);
    NormalAgreesExactly(c, d);
    if CanonicalText(c) == CanonicalText(d) {
      PrintInjective(ToJson(Normal(c)), ToJson(Normal(d)));
      ToJsonInjective(Normal(c), Normal(d));
    }
  }

  /** The same, for payloads: acceptance loses nothing but the dependency order. */
  lemma PayloadTextAgreesExactly(p: Json, q: Json)
    requires PayloadText(p).Ok? && PayloadText(q).Ok?
    ensures PayloadText(p) == PayloadText(q) <==> SameUpToOrder(Accept(p).value, Accept(q).value)
    ensures p == ToJson(Accept(p).value)
  {
    AcceptSound(p);
    AcceptSound(q);
    TextAgreesExactly(Accept(p).value, Accept(q).value);
  }
}
